/**
 The collector as the object it is in include/copy_collector.h: fields updated in
 place, loops over slots, roots and table entries. Every method is tied to the
 function of Heaps that the theorems are about.
 */
module Collector {
  import opened Bits
  import opened FatPtrs
  import AtomicCopy
  import opened Heaps
  import opened Ledgers
  import opened Slots
  import opened Evacuation
  import opened Completeness

  // ---- calc_alignment_bytes ----

  lemma MaskTest(x: nat, alignment: nat)
    requires PowerOfTwo(alignment)
    ensures alignment > 0 && (And(x, alignment - 1) == 0 <==> AlignedTo(x, alignment))
  {
    var k: nat :| alignment == Pow2(k);
    AndLowMask(x, k);
  }

  // For an alignment up to 256 the padding fits the byte counter of calc_alignment_bytes.
  lemma SmallPadding(ptr: nat, alignment: nat)
    requires IsPow2(alignment)
    ensures PowerOfTwo(alignment) && Padding(ptr, alignment) <= 255
  {
    hide IsPow2, Padding, AlignedTo, PowerOfTwo;
    Pow2AtMost256(alignment);
    PaddingAligns(ptr, alignment);
  }

  // The counter is a byte: where 255 bytes suffice it never wraps and stops at the least padding. Where
  // they do not the source's loop never ends (CounterReaches below).
  method CalcAlignmentBytes(ptr: nat, alignment: nat) returns (padding: nat)
    requires PowerOfTwo(alignment) && Padding(ptr, alignment) <= 255
    ensures padding == Padding(ptr, alignment) && padding < 256
    ensures AlignedTo(ptr + padding, alignment)
    ensures forall a: nat :: ptr <= a && AlignedTo(a, alignment) ==> ptr + padding <= a
  {
    hide PowerOfTwo, AlignedTo, Padding, And;
    MaskTest(ptr, alignment);
    PaddingAligns(ptr, alignment);
    padding := 0;
    while And(ptr + padding, alignment - 1) != 0
      invariant padding <= Padding(ptr, alignment)
      invariant And(ptr + padding, alignment - 1) == 0 <==> AlignedTo(ptr + padding, alignment)
      decreases Padding(ptr, alignment) - padding
    {
      padding := (padding + 1) % 256;
      MaskTest(ptr + padding, alignment);
    }
    PaddingLeast(ptr, alignment, padding);
    forall a: nat | ptr <= a && AlignedTo(a, alignment)
      ensures ptr + padding <= a
    {
      PaddingLeast(ptr, alignment, a - ptr);
    }
  }

  // For any alignment the byte counter reaches an aligned address exactly when at most 255 bytes of
  // padding are needed; otherwise the loop never ends.
  lemma CounterReaches(ptr: nat, alignment: nat)
    requires alignment > 0
    ensures (exists n: nat :: AlignedTo(ptr + n % 256, alignment)) <==> Padding(ptr, alignment) <= 255
  {
    hide AlignedTo, Padding;
    PaddingAligns(ptr, alignment);
    if Padding(ptr, alignment) <= 255 {
      assert Padding(ptr, alignment) % 256 == Padding(ptr, alignment);
    }
    forall n: nat | AlignedTo(ptr + n % 256, alignment)
      ensures Padding(ptr, alignment) <= 255
    {
      PaddingLeast(ptr, alignment, n % 256);
    }
  }

  // One byte into a page, alignment 512 needs 511 bytes, which the counter never reaches.
  lemma CounterSpins(base: nat)
    requires base % 512 == 0
    ensures !(exists n: nat :: AlignedTo(base + 1 + n % 256, 512))
  {
    hide AlignedTo;
    CounterReaches(base + 1, 512);
  }

  // ---- The object ----

  // An entry that lies inside one of the spaces.
  predicate Fits(c: Config, k: nat, d: MetaData) {
    && d.size > 0 && IsPow2(d.alignment)
    && ((c.base0 <= k && k + d.size <= c.base0 + c.heapSize) || (c.base1 <= k && k + d.size <= c.base1 + c.heapSize))
  }

  ghost predicate Sane(c: Config, t: Table) {
    forall k :: k in t ==> Fits(c, k, t[k])
  }

  // The methods below need no more than the heap invariant gives.
  lemma InvariantIsSane(c: Config, s: State)
    requires Invariant(c, s)
    ensures ValidConfig(c, |s.mem|) && Sane(c, s.table)
  {
    hide IsPow2, AlignedTo, Apart;
  }

  lemma SanePlace(c: Config, t: Table, k: nat, size: nat)
    requires ValidConfig(c, size) && Sane(c, t) && k in t
    ensures c.Contains(k) && k + t[k].size + 8 <= size && t[k].size > 0 && IsPow2(t[k].alignment)
  {
    hide IsPow2;
  }

  class CopyingCollector {
    const config: Config
    // the address space: both heap spaces, and the stacks and data segments that hold roots
    const mem: array<Byte>
    var next0: nat
    var next1: nat
    var active: Space
    var table: Table

    ghost function Snapshot(): State
      reads this, mem
    {
      State(mem[..], next0, next1, active, table)
    }

    ghost predicate Valid()
      reads this
    {
      ValidConfig(config, mem.Length) && Sane(config, table)
    }

    // Spaces of page_size_ceil(size) bytes at page-aligned addresses inside the given address space. Two such
    // spaces exist only for sizes the source's own test accepts.
    constructor (size: nat, pageSize: nat, memory: array<Byte>, base0: nat, base1: nat)
      requires pageSize > 0 && pageSize % 256 == 0 && base0 % pageSize == 0 && base1 % pageSize == 0
      requires var heapSize := PageSizeCeil(size, pageSize);
        && (base0 + heapSize <= base1 || base1 + heapSize <= base0)
        && base0 + heapSize + 8 <= memory.Length && base1 + heapSize + 8 <= memory.Length
        && memory.Length <= ADDRESS_LIMIT
      ensures Valid() && mem == memory && size < PTR_MASK
      ensures config == Config(base0, base1, PageSizeCeil(size, pageSize), size / 2)
      ensures table == map[] && next0 == 0 && next1 == 0 && active == Zero
      ensures Invariant(config, Snapshot())
    {
      PageSizes(size, pageSize);
      PageMultiples(base0, pageSize);
      PageMultiples(base1, pageSize);
      PageMultiples(PageSizeCeil(size, pageSize), pageSize);
      config := Config(base0, base1, PageSizeCeil(size, pageSize), size / 2);
      mem := memory;
      next0, next1, active, table := 0, 0, Zero, map[];
    }

    // The work of a collection in progress.
    ghost function Work(to: Space, visited: map<nat, nat>): Evac
      reads this, mem
    {
      Evac(mem[..], if to.Zero? then next0 else next1, table, visited)
    }

    function Next(sp: Space): nat
      reads this
    {
      if sp.Zero? then next0 else next1
    }

    method SetNext(sp: Space, n: nat)
      modifies this`next0, this`next1
      ensures Next(sp) == n && Next(sp.Other()) == old(Next(sp.Other()))
    {
      if sp.Zero? {
        next0 := n;
      } else {
        next1 := n;
      }
    }

    // get_space_num; None where the source throws.
    method GetSpaceNum(ptr: nat) returns (r: Option<Space>)
      requires Valid()
      ensures r.Some? ==> config.InSpace(r.value, ptr) && !config.InSpace(r.value.Other(), ptr)
      ensures r.None? <==> !config.Contains(ptr)
    {
      if config.InSpace(Zero, ptr) {
        return Some(Zero);
      } else if config.InSpace(One, ptr) {
        return Some(One);
      }
      return None;
    }

    // reserve_space: retried until the bump index could be advanced from the value the padding was computed for.
    method ReserveSpace(size: nat, to: Space, alignment: nat, limit: nat) returns (index: Option<nat>)
      requires PowerOfTwo(alignment) && Padding(config.Base(to) + Next(to), alignment) <= 255
      modifies this`next0, this`next1
      ensures index == Reserve(config.Base(to), old(Next(to)), size, alignment, limit)
      ensures Next(to) == (if index.Some? then index.value + size else old(Next(to)))
      ensures Next(to.Other()) == old(Next(to.Other()))
      ensures index.Some? ==>
        && AlignedTo(config.Base(to) + index.value, alignment)
        && old(Next(to)) <= index.value && index.value + size <= limit
    {
      hide PowerOfTwo, AlignedTo, Padding;
      var next := Next(to);
      var exchanged := false;
      index := None;
      while !exchanged
        invariant !exchanged ==> next == Next(to) == old(Next(to)) && Next(to.Other()) == old(Next(to.Other()))
        invariant exchanged ==>
          && index == Reserve(config.Base(to), old(Next(to)), size, alignment, limit) && index.Some?
          && AlignedTo(config.Base(to) + index.value, alignment) && old(Next(to)) <= index.value
               && index.value + size <= limit
          && Next(to) == index.value + size && Next(to.Other()) == old(Next(to.Other()))
        decreases !exchanged
      {
        var padding := CalcAlignmentBytes(config.Base(to) + next, alignment);
        if next + size + padding > limit {
          return None;
        }
        // compare_exchange
        if Next(to) == next {
          SetNext(to, next + size + padding);
          exchanged := true;
          index := Some(next + padding);
        } else {
          next := Next(to);
        }
      }
    }

    // check_overlapping_alloc; None where the source returns.
    method CheckOverlappingAlloc(index: Option<nat>, space: Space, size: nat) returns (fault: Option<Fault>)
      ensures index.None? ==> fault == if table == map[] then None else Some(BadOptionalAccess)
      ensures index.Some? ==>
        fault == if Overlaps(table, config.Base(space) + index.value, size) then Some(HeapCorruption) else None
    {
      var left := table.Keys;
      while left != {}
        invariant left <= table.Keys
        invariant index.None? ==> left == table.Keys
        invariant index.Some? ==> forall k :: k in table && k !in left ==>
          !OverlapsEntry(k, table[k].size, config.Base(space) + index.value, size)
        decreases left
      {
        var k :| k in left;
        left := left - {k};
        if index.None? {
          return Some(BadOptionalAccess);
        }
        if OverlapsEntry(k, table[k].size, config.Base(space) + index.value, size) {
          return Some(HeapCorruption);
        }
      }
      return None;
    }

    // alloc_no_constraints: the address of the reserved index, recorded in the table.
    method AllocNoConstraints(to: Space, d: MetaData, index: nat) returns (r: Option<nat>)
      modifies this`table
      ensures d.size + index >= config.heapSize ==> r.None? && table == old(table)
      ensures d.size + index < config.heapSize ==>
        r == Some(config.Base(to) + index) && table == Emplace(old(table), config.Base(to) + index, d)
      ensures r.Some? ==> r.value in table && (r.value in old(table) || table[r.value] == d)
      ensures forall k :: k in old(table) ==> k in table && table[k] == old(table)[k]
      ensures forall k :: k in table ==> k in old(table) || r == Some(k)
    {
      if d.size + index >= config.heapSize {
        return None;
      }
      var ptr := config.Base(to) + index;
      if ptr !in table {
        table := table[ptr := d];
      }
      return Some(ptr);
    }

    // copy: give the object its place in to-space and make the slot name it.
    method Copy(
        slot: nat, to: Space, ptr: nat, ghost visited: map<nat, nat>) returns (copied: Option<nat>, fault: Fault)
      requires Valid() && ptr in table && slot + 16 <= mem.Length
      modifies this`next0, this`next1, this`table, mem
      ensures Valid() && Next(to.Other()) == old(Next(to.Other()))
      ensures config.InSpace(to, ptr) ==> copied == Some(ptr) && Snapshot() == old(Snapshot())
      ensures !config.InSpace(to, ptr) ==>
        match CopyObject(config, to, old(Work(to, visited)), slot, ptr)
        case Done(e) => copied.Some? && e == Work(to, visited[ptr := copied.value])
        case Faulted(e, f) => copied.None? && fault == f && e == Work(to, visited)
    {
      hide IsPow2, PowerOfTwo, Padding, AlignedTo, Overlaps, Reserve, AtomicCopy.Copy, Cas, Sane, Fits;
      hide Emplace, ValidConfig;
      copied, fault := None, BadAlloc;
      SanePlace(config, table, ptr, mem.Length);
      var space := GetSpaceNum(ptr);
      if space == Some(to) {
        copied := Some(ptr);
        return;
      }
      var d := table[ptr];
      SmallPadding(config.Base(to) + Next(to), d.alignment);
      var index := ReserveSpace(d.size, to, d.alignment, config.heapSize);
      var bad := CheckOverlappingAlloc(index, to, d.size);
      if bad.Some? {
        fault := bad.value;
        return;
      }
      copied := PlaceCopy(slot, to, ptr, d, index.value);
    }

    // The second half of copy: record the copy, copy the bytes, swing the slot, forget the original.
    method PlaceCopy(slot: nat, to: Space, ptr: nat, d: MetaData, index: nat) returns (copied: Option<nat>)
      requires Valid() && ptr in table && table[ptr] == d && slot + 16 <= mem.Length
      modifies this`table, mem
      ensures Valid()
      ensures d.size + index >= config.heapSize ==> copied.None? && table == old(table) && mem[..] == old(mem[..])
      ensures d.size + index < config.heapSize ==>
        && copied == Some(config.Base(to) + index)
        && table == Emplace(old(table), config.Base(to) + index, d) - {ptr}
        && mem[..] == Cas(AtomicCopy.Copy(old(mem[..]), config.Base(to) + index, ptr, d.size), slot, ptr,
             config.Base(to) + index)
    {
      hide IsPow2, AtomicCopy.Copy, Cas, Sane, Fits, Emplace, ValidConfig;
      SanePlace(config, table, ptr, mem.Length);
      copied := AllocNoConstraints(to, d, index);
      if copied.None? {
        return;
      }
      SaneEmplace(config, old(table), table, to, index, d);
      SaneRemove(config, table, ptr);
      InMemory(config, mem.Length, to, index, d.size);
      AtomicCopy.SeqCstCpy(mem, copied.value, ptr, d.size);
      var current := CompareExchange(mem, slot, ptr, copied.value);
      table := table - {ptr};
    }

    // forward_ptr: depth-first over an explicit stack of slots.
    method ForwardPtr(
        to: Space, slot: nat, visited0: map<nat, nat>) returns (visited: map<nat, nat>, fault: Option<Fault>)
      requires Valid() && slot + 16 <= mem.Length
      modifies this`next0, this`next1, this`table, mem
      ensures Valid() && Next(to.Other()) == old(Next(to.Other()))
      ensures Forward(config, to, OfOriginal, old(Work(to, visited0)), [slot])
        == if fault.None? then Done(Work(to, visited)) else Faulted(Work(to, visited), fault.value)
    {
      hide IsSlot, Target, Cas, CopyObject, ScanMemory, Pending, ValidConfig, Sane, Step;
      visited, fault := visited0, None;
      var stack := [slot];
      while stack != []
        invariant Valid() && Next(to.Other()) == old(Next(to.Other()))
        invariant fault.None? && forall s :: s in stack ==> s + 16 <= mem.Length
        invariant Forward(config, to, OfOriginal, Work(to, visited), stack)
          == Forward(config, to, OfOriginal, old(Work(to, visited0)), [slot])
        decreases Pending(config, to, table), |stack|
      {
        ghost var before, stackBefore := Work(to, visited), stack;
        visited, stack, fault := ForwardTop(to, stack, visited);
        OneTurn(config, to, before, stackBefore);
        if fault.Some? {
          return;
        }
      }
    }

    // One turn of forward_ptr's loop.
    method ForwardTop(
        to: Space, stack0: seq<nat>, visited0: map<nat, nat>)
      returns (visited: map<nat, nat>, stack: seq<nat>, fault: Option<Fault>)
      requires Valid() && stack0 != [] && forall s :: s in stack0 ==> s + 16 <= mem.Length
      modifies this`next0, this`next1, this`table, mem
      ensures Valid() && Next(to.Other()) == old(Next(to.Other()))
      ensures forall s :: s in stack ==> s + 16 <= mem.Length
      ensures Step(config, to, OfOriginal, old(Work(to, visited0)), stack0)
        == if fault.None? then StepResult.Next(Work(to, visited), stack) else Halt(Work(to, visited), fault.value)
    {
      hide IsSlot, Target, Cas, CopyObject, ScanMemory, Pending, ValidConfig, Sane, IsPow2;
      visited, fault := visited0, None;
      var slot := stack0[|stack0| - 1];
      stack := stack0[..|stack0| - 1];
      assert slot in stack0 && forall s :: s in stack ==> s in stack0;
      var value := TestSlot(mem, slot);
      if value.None? {
        return;
      }
      var v := value.value;
      if v in visited {
        var current := CompareExchange(mem, slot, v, visited[v]);
        return;
      }
      if v !in table {
        return;
      }
      SanePlace(config, table, v, mem.Length);
      AddressSpaceBound(config, mem.Length);
      var space := GetSpaceNum(v);
      if space == Some(to) {
        return;
      }
      var slots := ScanSlots(mem, v, v + table[v].size);
      var copied, f := Copy(slot, to, v, visited);
      if copied.None? {
        fault := Some(f);
        return;
      }
      visited := visited[v := copied.value];
      stack := stack + slots;
    }

    // The sweep at the end of a collection: entries outside to-space that were not visited.
    method SweepTable(to: Space, visited: map<nat, nat>)
      requires Valid()
      modifies this`table
      ensures Valid() && table == Sweep(config, to, old(Work(to, visited)))
      ensures forall k :: k in old(table) && k !in table <==>
        k in old(table) && k !in visited && !config.InSpace(to, k)
      ensures forall k :: k in table ==> k in old(table) && table[k] == old(table)[k]
    {
      hide Fits, ValidConfig;
      var left, toRemove := table.Keys, {};
      while left != {}
        invariant left <= table.Keys && toRemove <= table.Keys
        invariant forall k :: k in table && k !in left ==> (k in toRemove <==> !config.InSpace(to, k) && k !in visited)
        invariant toRemove !! left
        decreases left
      {
        var k :| k in left;
        left := left - {k};
        if !config.InSpace(to, k) && k !in visited {
          toRemove := toRemove + {k};
        }
      }
      table := table - toRemove;
    }

    // async_collect with the serial policy. A fault ends the work where it is; the future keeps it.
    method AsyncCollect(roots: seq<nat>) returns (fault: Option<Fault>)
      requires Valid() && forall r :: r in roots ==> r + 16 <= mem.Length
      modifies this, mem
      ensures Valid() && Snapshot() == Collect(config, OfOriginal, old(Snapshot()), roots)
      ensures active == old(active).Other() && Next(old(active)) == 0
      ensures fault == match Evacuate(config, OfOriginal, old(Snapshot()), roots) case Done(_) => None
        case Faulted(_, f) => Some(f)
    {
      hide IsSlot, Target, Forward, Sweep, ValidConfig, Sane;
      var from, to := active, active.Other();
      active := to;
      SetNext(from, 0);
      ghost var start := Work(to, map[]);
      var visited: map<nat, nat> := map[];
      fault := None;
      var i := 0;
      while i < |roots| && fault.None?
        invariant 0 <= i <= |roots| && Valid() && Next(from) == 0 && active == to
        invariant ForwardRoots(config, to, OfOriginal, start, roots)
          == if fault.None? then ForwardRoots(config, to, OfOriginal, Work(to, visited), roots[i..])
            else Faulted(Work(to, visited), fault.value)
      {
        var root := roots[i];
        assert root in roots;
        ghost var before := Work(to, visited);
        var value := TestSlot(mem, root);
        if value.Some? && config.Contains(value.value) {
          visited, fault := ForwardPtr(to, root, visited);
        }
        OneRoot(config, to, before, roots[i..]);
        assert roots[i..][1..] == roots[i + 1..];
        i := i + 1;
      }
      if fault.None? {
        assert roots[i..] == [];
        SweepTable(to, visited);
      }
    }

    // free_space: exactly the requests up to n would fit, unpadded, below the allocation limit.
    method FreeSpace() returns (n: nat)
      ensures n + Next(active) >= config.maxAlloc
      ensures n > 0 ==> n + Next(active) == config.maxAlloc
    {
      var next := Next(active);
      n := if next >= config.maxAlloc then 0 else config.maxAlloc - next;
    }

    method Contains(ptr: nat) returns (r: bool)
      ensures r == config.Contains(ptr)
    {
      r := config.Contains(ptr);
    }

    // collect: with the serial policy the previous collection, if any, has always finished. Where the room
    // asked for is free nothing happens.
    method CollectFor(needed: nat, roots: seq<nat>)
      requires Valid() && forall r :: r in roots ==> r + 16 <= mem.Length
      modifies this, mem
      ensures Valid() && Snapshot() == Heaps.CollectFor(config, old(Snapshot()), roots, needed)
      ensures needed == 0 || old(Next(active)) + needed <= config.maxAlloc ==>
        && mem[..] == old(mem[..]) && table == old(table) && active == old(active)
        && next0 == old(next0) && next1 == old(next1)
      ensures needed > 0 && old(Next(active)) + needed > config.maxAlloc ==>
        && Snapshot() == Collect(config, OfOriginal, old(Snapshot()), roots)
        && active == old(active).Other() && Next(old(active)) == 0
    {
      hide Collect, ValidConfig, Sane, Evacuate;
      var free := FreeSpace();
      if free < needed {
        var fault := AsyncCollect(roots);
      }
    }

    // alloc_attempt without its retry: None where the source goes on to collect or to give up.
    method TryAlloc(size: nat, alignment: nat) returns (done: bool, ptr: Option<nat>, fault: Fault)
      requires Valid() && size > 0 && IsPow2(alignment)
      modifies this
      ensures Valid()
      ensures match Heaps.TryAlloc(config, old(Snapshot()), size, alignment)
        case None => !done && Snapshot() == old(Snapshot())
        case Some(Allocated(s, p)) => done && ptr == Some(p) && s == Snapshot()
        case Some(Refused(s, f)) => done && ptr == None && fault == f && s == Snapshot()
    {
      hide IsPow2, PowerOfTwo, Padding, AlignedTo, Overlaps, Reserve, Sane, Fits, Emplace, ValidConfig;
      done, ptr, fault := true, None, BadAlloc;
      var to := active;
      SmallPadding(config.Base(to) + Next(to), alignment);
      var index := ReserveSpace(size, to, alignment, config.maxAlloc);
      var bad := CheckOverlappingAlloc(index, to, size);
      if bad.Some? {
        fault := bad.value;
        return;
      }
      if index.None? {
        done := false;
        return;
      }
      ptr := AllocNoConstraints(to, MetaData(size, alignment), index.value);
      if ptr.Some? {
        SaneEmplace(config, old(table), table, to, index.value, MetaData(size, alignment));
      }
    }

    method AllocAttempt(
        size: nat, alignment: nat, attempts: nat, roots: seq<nat>) returns (ptr: Option<nat>, fault: Fault)
      requires Valid() && size > 0 && IsPow2(alignment) && attempts <= 1 && forall r :: r in roots ==>
        r + 16 <= mem.Length
      modifies this, mem
      ensures Valid()
      ensures attempts == 0 ==>
        AllocAttempted(Heaps.AllocAttempt(config, old(Snapshot()), roots, size, alignment), ptr, fault)
      ensures attempts == 1 ==>
        match Heaps.TryAlloc(config, old(Snapshot()), size, alignment)
        case None => ptr.None? && fault == BadAlloc && Snapshot() == old(Snapshot())
        case Some(r) => AllocAttempted(r, ptr, fault)
      decreases 1 - attempts
    {
      hide IsPow2, Sane, ValidConfig, Heaps.TryAlloc, Heaps.CollectFor;
      var done;
      done, ptr, fault := TryAlloc(size, alignment);
      if !done {
        if attempts < 1 {
          CollectFor(size, roots);
          ptr, fault := AllocAttempt(size, alignment, attempts + 1, roots);
        } else {
          ptr, fault := None, BadAlloc;
        }
      }
    }

    ghost predicate AllocAttempted(r: AllocResult, ptr: Option<nat>, fault: Fault)
      reads this, mem
    {
      match r
      case Allocated(s, p) => ptr == Some(p) && s == Snapshot()
      case Refused(s, f) => ptr == None && fault == f && s == Snapshot()
    }

    method Alloc(size: nat, alignment: nat, roots: seq<nat>) returns (ptr: Option<nat>, fault: Fault)
      requires Valid() && IsPow2(alignment) && forall r :: r in roots ==> r + 16 <= mem.Length
      modifies this, mem
      ensures Valid() && AllocAttempted(Heaps.Alloc(config, old(Snapshot()), roots, size, alignment), ptr, fault)
    {
      hide IsPow2, Sane, ValidConfig, Heaps.AllocAttempt;
      if size == 0 || size > config.maxAlloc {
        return None, BadAlloc;
      }
      ptr, fault := AllocAttempt(size, alignment, 0, roots);
    }
  }

  // GC::alloc (src/safe_alloc.cpp) on the global collector.
  method GcAlloc(
      collector: CopyingCollector, size: nat, alignment: nat, roots: seq<nat>)
    returns (ptr: Option<nat>, fault: Fault)
    requires collector.Valid() && IsPow2(alignment) && forall r :: r in roots ==> r + 16 <= collector.mem.Length
    modifies collector, collector.mem
    ensures collector.Valid()
    ensures collector.AllocAttempted(Heaps.GcAlloc(collector.config, old(collector.Snapshot()), roots, size,
      alignment), ptr, fault)
  {
    hide IsPow2, Sane, ValidConfig, Heaps.Alloc, Heaps.CollectFor;
    var free := collector.FreeSpace();
    if free < size {
      collector.CollectFor(SIZE_MAX, roots);
      free := collector.FreeSpace();
      if free < size {
        return None, BadAlloc;
      }
    }
    ptr, fault := collector.Alloc(size, alignment, roots);
  }

  // GC::alloc with its default alignment on a packed heap: it returns a pointer exactly when the request
  // is not empty and fits beside the objects the roots reach.
  method GcAllocBytes(collector: CopyingCollector, size: nat, roots: seq<nat>) returns (ptr: Option<nat>)
    requires Packed(collector.config, collector.Snapshot()) && collector.config.maxAlloc < SIZE_MAX
    requires RootPlaces(collector.config, collector.mem.Length, roots)
    modifies collector, collector.mem
    ensures Packed(collector.config, collector.Snapshot())
    ensures ptr.Some? <==>
      size > 0 && old(LiveBytes(collector.Snapshot(), roots)) + size <= collector.config.maxAlloc
  {
    hide IsPow2, Packed, LiveBytes, Heaps.GcAlloc, RootPlace;
    ghost var s := collector.Snapshot();
    PackedInvariant(collector.config, s);
    InvariantIsSane(collector.config, s);
    assert IsPow2(1) by { OneIsPow2(); }
    forall r | r in roots
      ensures r + 16 <= collector.mem.Length
    {
      RootInMemory(collector.config, collector.mem.Length, roots, r);
    }
    var fault;
    ptr, fault := GcAlloc(collector, size, 1, roots);
    GcAllocComplete(collector.config, s, roots, size);
  }

  lemma OneIsPow2()
    ensures IsPow2(1)
  {
    assert Pow2(0) == 1;
  }

  lemma RootInMemory(c: Config, size: nat, roots: seq<nat>, r: nat)
    requires RootPlaces(c, size, roots) && r in roots
    ensures r + 16 <= size
  {}

  lemma OneRoot(c: Config, to: Space, e: Evac, roots: seq<nat>)
    requires roots != []
    ensures var f := Forward(c, to, OfOriginal, e, [roots[0]]);
      ForwardRoots(c, to, OfOriginal, e, roots)
      == if !(IsSlot(e.mem, roots[0]) && c.Contains(Target(e.mem, roots[0])))
        then ForwardRoots(c, to, OfOriginal, e, roots[1..])
         else if f.Done? then ForwardRoots(c, to, OfOriginal, f.e, roots[1..])
         else f
  {
    hide IsSlot, Target, Forward;
  }

  lemma OneTurn(c: Config, to: Space, e: Evac, stack: seq<nat>)
    requires stack != []
    ensures Forward(c, to, OfOriginal, e, stack)
      == match Step(c, to, OfOriginal, e, stack)
         case Halt(e1, fault) => Faulted(e1, fault)
         case Next(e1, stack1) => Forward(c, to, OfOriginal, e1, stack1)
  {
    hide Step, Pending;
  }

  lemma AddressSpaceBound(c: Config, size: nat)
    requires ValidConfig(c, size)
    ensures size <= ADDRESS_LIMIT
  {}

  lemma SaneEmplace(c: Config, t: Table, t1: Table, to: Space, index: nat, d: MetaData)
    requires Sane(c, t) && d.size > 0 && IsPow2(d.alignment) && d.size + index < c.heapSize
    requires t1 == Emplace(t, c.Base(to) + index, d)
    ensures Sane(c, t1)
  {
    hide IsPow2;
  }

  lemma InMemory(c: Config, size: nat, to: Space, index: nat, n: nat)
    requires ValidConfig(c, size) && n + index < c.heapSize
    ensures c.Base(to) + index + n + 7 <= size
  {}

  lemma SaneRemove(c: Config, t: Table, k: nat)
    requires Sane(c, t)
    ensures Sane(c, t - {k})
  {
    hide Fits;
  }

  function PageSizeCeil(size: nat, pageSize: nat): nat
    requires pageSize > 0
  {
    (size + pageSize - 1) / pageSize * pageSize
  }

  // page_size_ceil is the least multiple of the page size that is not below size.
  lemma PageSizes(size: nat, pageSize: nat)
    requires pageSize > 0
    ensures size <= PageSizeCeil(size, pageSize) < size + pageSize
    ensures PageSizeCeil(size, pageSize) % pageSize == 0
  {
    var x := size + pageSize - 1;
    var q, r := x / pageSize, x % pageSize;
    assert x == pageSize * q + r;
    assert q * pageSize == pageSize * q;
    DivModUnique(pageSize * q, pageSize, q, 0);
  }

  lemma PageMultiples(x: nat, pageSize: nat)
    requires pageSize > 0 && pageSize % 256 == 0 && x % pageSize == 0
    ensures x % 256 == 0
  {
    var q, d := x / pageSize, pageSize / 256;
    assert x == pageSize * q && pageSize == 256 * d;
    Assoc(256, d, q);
    DivModUnique(x, 256, d * q, 0);
  }
}
