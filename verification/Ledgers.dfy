/**
 What one collection keeps about the table, the forwarding map and the bump index,
 whatever the memory holds and whichever object's slots are scanned.
 `t0` is the table when the collection starts.
 */
module Ledgers {
  import opened Bits
  import opened FatPtrs
  import AtomicCopy
  import opened Heaps

  // ---- Sizes of sets of objects ----

  function Weight(d: MetaData, padded: bool): nat {
    if padded && d.alignment > 0 then d.size + d.alignment - 1 else d.size
  }

  ghost function Pick(ks: set<nat>): (k: nat)
    requires ks != {}
    ensures k in ks
  {
    var k :| k in ks; k
  }

  // The bytes the objects take, either bare or each with the most padding its alignment can ask for.
  ghost function Sum(t: Table, ks: set<nat>, padded: bool): nat
    requires ks <= t.Keys
    decreases |ks|
  {
    if ks == {} then 0
    else var k := Pick(ks); Weight(t[k], padded) + Sum(t, ks - {k}, padded)
  }

  lemma {:induction false} SumRemove(t: Table, ks: set<nat>, k: nat, padded: bool)
    requires ks <= t.Keys && k in ks
    ensures Sum(t, ks, padded) == Weight(t[k], padded) + Sum(t, ks - {k}, padded)
    decreases |ks|
  {
    hide Weight;
    var j := Pick(ks);
    if j != k {
      SumRemove(t, ks - {j}, k, padded);
      SumRemove(t, ks - {k}, j, padded);
      assert ks - {j} - {k} == ks - {k} - {j};
    }
  }

  lemma SumAdd(t: Table, ks: set<nat>, k: nat, padded: bool)
    requires ks <= t.Keys && k in t && k !in ks
    ensures Sum(t, ks + {k}, padded) == Sum(t, ks, padded) + Weight(t[k], padded)
  {
    SumRemove(t, ks + {k}, k, padded);
    assert ks + {k} - {k} == ks;
  }

  lemma {:induction false} SumMonotone(t: Table, ks: set<nat>, ls: set<nat>, padded: bool)
    requires ks <= ls <= t.Keys
    ensures Sum(t, ks, padded) <= Sum(t, ls, padded)
    decreases |ls|
  {
    if ls - ks == {} {
      assert ks == ls;
    } else {
      var k :| k in ls - ks;
      SumRemove(t, ls, k, padded);
      SumMonotone(t, ks, ls - {k}, padded);
    }
  }

  ghost predicate CopyPlaced(c: Config, to: Space, d: MetaData, a: nat, next: nat) {
    c.Base(to) <= a && a + d.size <= c.Base(to) + next && AlignedTo(a, d.alignment)
  }

  ghost predicate IsCopy(visited: map<nat, nat>, a: nat) {
    exists k :: k in visited && visited[k] == a
  }

  // The objects wait to be copied in from-space; to-space holds the copies.
  ghost predicate FromSpaceTable(c: Config, to: Space, t0: Table) {
    WellPlaced(c, to.Other(), t0, c.heapSize)
  }

  // The originals still managed are exactly those not visited.
  ghost predicate OriginalsKept(t0: Table, e: Evac) {
    && e.visited.Keys <= t0.Keys
    && (forall k :: k in t0 ==> (k in e.table <==> k !in e.visited))
    && (forall k :: k in t0 && k in e.table ==> e.table[k] == t0[k])
  }

  // Each visited object has its copy in the table, with the same metadata.
  ghost predicate CopiesKept(c: Config, to: Space, t0: Table, e: Evac) {
    forall k :: k in e.visited && k in t0 ==>
      && e.visited[k] in e.table && e.table[e.visited[k]] == t0[k]
      && CopyPlaced(c, to, t0[k], e.visited[k], e.next)
  }

  ghost predicate CopiesApart(t0: Table, visited: map<nat, nat>) {
    forall j, k :: j in visited && k in visited && j in t0 && k in t0 && j != k ==>
      Apart(visited[j], t0[j].size, visited[k], t0[k].size)
  }

  ghost predicate NothingElse(t0: Table, e: Evac) {
    forall a :: a in e.table && a !in t0 ==> IsCopy(e.visited, a)
  }

  // The bump index lies between the bytes copied and those bytes with the worst padding.
  ghost predicate Accounted(t0: Table, e: Evac) {
    && e.visited.Keys <= t0.Keys
    && Sum(t0, e.visited.Keys, false) <= e.next <= Sum(t0, e.visited.Keys, true)
  }

  ghost predicate Books(c: Config, to: Space, t0: Table, e: Evac) {
    e.next <= c.heapSize && OriginalsKept(t0, e) && CopiesKept(c, to, t0, e) && CopiesApart(t0, e.visited)
      && NothingElse(t0, e)
  }

  ghost predicate Ledger(c: Config, to: Space, t0: Table, e: Evac) {
    Accounted(t0, e) && Books(c, to, t0, e)
  }

  lemma AcrossSpaces(c: Config, to: Space, k: nat, m: nat, a: nat, n: nat)
    requires SpacesApart(c)
    requires c.Base(to.Other()) <= k && k + m <= c.Base(to.Other()) + c.heapSize
    requires c.Base(to) <= a && a + n <= c.Base(to) + c.heapSize
    ensures Apart(k, m, a, n)
  {}

  lemma EntryApart(c: Config, to: Space, t0: Table, e: Evac, k: nat, a: nat, n: nat)
    requires ValidConfig(c, |e.mem|) && FromSpaceTable(c, to, t0) && Ledger(c, to, t0, e)
    requires c.Base(to) + e.next <= a && a + n <= c.Base(to) + c.heapSize
    requires k in e.table
    ensures Apart(k, e.table[k].size, a, n) && e.table[k].size > 0
  {
    hide IsPow2, AlignedTo;
    if k in t0 {
      AcrossSpaces(c, to, k, t0[k].size, a, n);
    } else {
      var j :| j in e.visited && e.visited[j] == k;
      assert CopyPlaced(c, to, t0[j], e.visited[j], e.next);
    }
  }

  // The next free part of to-space overlaps nothing that is managed.
  lemma FreshCopy(c: Config, to: Space, t0: Table, e: Evac, a: nat, n: nat)
    requires ValidConfig(c, |e.mem|) && FromSpaceTable(c, to, t0) && Ledger(c, to, t0, e)
    requires c.Base(to) + e.next <= a && a + n <= c.Base(to) + c.heapSize && n > 0
    ensures !Overlaps(e.table, a, n) && a !in e.table && a !in t0
  {
    hide Ledger, IsPow2, AlignedTo;
    forall k | k in e.table
      ensures !OverlapsEntry(k, e.table[k].size, a, n) && k != a
    {
      EntryApart(c, to, t0, e, k, a, n);
    }
    if a in t0 {
      AcrossSpaces(c, to, a, t0[a].size, a, n);
    }
  }

  predicate Covers(k: nat, n: nat, b: nat) {
    k <= b < k + n
  }

  ghost predicate SharesByte(k: nat, n: nat, a: nat, size: nat) {
    exists b: nat :: Covers(k, n, b) && Covers(a, size, b)
  }

  // An allocation is reported as heap corruption exactly when it shares a byte with a managed object.
  lemma OverlapSharesByte(t: Table, a: nat, size: nat)
    requires size > 0 && forall k :: k in t ==> t[k].size > 0
    ensures Overlaps(t, a, size) <==> exists k :: k in t && SharesByte(k, t[k].size, a, size)
  {
    hide SharesByte;
    forall k | k in t
      ensures OverlapsEntry(k, t[k].size, a, size) <==> SharesByte(k, t[k].size, a, size)
    {
      EntrySharesByte(k, t[k].size, a, size);
    }
  }

  lemma EntrySharesByte(k: nat, n: nat, a: nat, size: nat)
    requires n > 0 && size > 0
    ensures OverlapsEntry(k, n, a, size) <==> SharesByte(k, n, a, size)
  {
    if OverlapsEntry(k, n, a, size) {
      var b := if k <= a then a else k;
      assert Covers(k, n, b) && Covers(a, size, b);
    }
  }

  // ---- Padding ----

  // Padding reaches the alignment, and no smaller padding does.
  lemma PaddingAligns(x: nat, alignment: nat)
    requires alignment > 0
    ensures Padding(x, alignment) < alignment
    ensures AlignedTo(x + Padding(x, alignment), alignment)
  {
    var q, r := x / alignment, x % alignment;
    assert x == alignment * q + r;
    if r != 0 {
      MulSucc(alignment, q + 1);
      DivModUnique(x + (alignment - r), alignment, q + 1, 0);
    }
  }

  lemma PaddingLeast(x: nat, alignment: nat, p: nat)
    requires AlignedTo(x + p, alignment)
    ensures Padding(x, alignment) <= p
  {
    var q, r := x / alignment, x % alignment;
    if r != 0 && p < alignment - r {
      assert x + p == alignment * q + (r + p);
      DivModUnique(x + p, alignment, q, r + p);
    }
  }

  lemma MultipleOf8(x: nat, alignment: nat)
    requires AlignedTo(x, alignment) && alignment % 8 == 0
    ensures x % 8 == 0
  {
    var q, d := x / alignment, alignment / 8;
    assert x == alignment * q && alignment == 8 * d;
    Assoc(8, d, q);
    DivModUnique(x, 8, d * q, 0);
  }

  // ---- One copy ----

  // e1 is e after object k has been given the copy a.
  ghost predicate Moved(c: Config, to: Space, e: Evac, e1: Evac, k: nat, a: nat) {
    && k in e.table && k !in e.visited
    && c.Base(to) + e.next <= a && e1.next <= c.heapSize
    && e.next + e.table[k].size <= e1.next <= e.next + Weight(e.table[k], true)
    && CopyPlaced(c, to, e.table[k], a, e1.next)
    && e1.table == e.table[a := e.table[k]] - {k}
    && e1.visited == e.visited[k := a]
  }

  // copy() succeeds exactly when the object, padded, ends below the end of to-space; a failure
  // is never reported as heap corruption.
  lemma CopyObjectMoves(c: Config, to: Space, t0: Table, e: Evac, slot: nat, k: nat)
    requires ValidConfig(c, |e.mem|) && FromSpaceTable(c, to, t0) && Ledger(c, to, t0, e)
    requires k in t0 && k in e.table
    ensures var d := t0[k]; var p := Padding(c.Base(to) + e.next, d.alignment);
      var r := CopyObject(c, to, e, slot, k);
      && (r.Done? <==> e.next + p + d.size < c.heapSize)
      && (r.Done? ==>
           && Moved(c, to, e, r.e, k, c.Base(to) + e.next + p) && r.e.next == e.next + p + d.size
           && r.e.mem == Cas(AtomicCopy.Copy(e.mem, c.Base(to) + e.next + p, k, d.size), slot, k,
                c.Base(to) + e.next + p))
      && (r.Faulted? ==> r.e.mem == e.mem && r.e.table == e.table && r.e.visited == e.visited)
      && (r.Faulted? ==> e.next <= r.e.next <= c.heapSize)
      && (r.Faulted? ==>
           if e.next + p + d.size == c.heapSize then r.fault == BadAlloc && r.e.next == c.heapSize
           else r.fault == BadOptionalAccess && r.e.next == e.next)
  {
    hide Ledger, Overlaps, Padding, IsPow2, AlignedTo, AtomicCopy.Copy, Cas;
    var d := t0[k];
    assert d == e.table[k] && d.size > 0 && k !in e.visited && e.next <= c.heapSize by { LedgerAt(c, to, t0, e, k); }
    assert d.alignment > 0 by { Pow2Positive(c, to, t0, k); }
    PaddingAligns(c.Base(to) + e.next, d.alignment);
    var p := Padding(c.Base(to) + e.next, d.alignment);
    if e.next + d.size + p <= c.heapSize {
      FreshCopy(c, to, t0, e, c.Base(to) + e.next + p, d.size);
    }
  }

  // In any state at all: what copy() throws, and that it then has changed nothing but the bump index, which
  // it advances whenever the object fits under the end of the space and never takes back.
  lemma CopyObjectFrame(c: Config, to: Space, e: Evac, slot: nat, k: nat)
    requires k in e.table
    ensures var r := CopyObject(c, to, e, slot, k); var d := e.table[k];
      var start := e.next + Padding(c.Base(to) + e.next, d.alignment);
      && (r.Faulted? ==> r.e.mem == e.mem && r.e.table == e.table && r.e.visited == e.visited)
      && r.e.next == (if start + d.size <= c.heapSize then start + d.size else e.next)
      && (start + d.size > c.heapSize ==> r == Faulted(r.e, BadOptionalAccess))
      && (start + d.size <= c.heapSize ==>
           && (r.Faulted? && r.fault == HeapCorruption <==> Overlaps(e.table, c.Base(to) + start, d.size))
           && (r.Done? <==> start + d.size < c.heapSize && !Overlaps(e.table, c.Base(to) + start, d.size)))
      && (r.Faulted? ==> r.fault != NotManaged)
  {
    hide Overlaps, Padding, AtomicCopy.Copy, Cas, Emplace;
  }

  lemma LedgerAt(c: Config, to: Space, t0: Table, e: Evac, k: nat)
    requires FromSpaceTable(c, to, t0) && Ledger(c, to, t0, e) && k in t0 && k in e.table
    ensures e.table[k] == t0[k] && t0[k].size > 0 && k !in e.visited && e.next <= c.heapSize
  {}

  lemma Pow2Positive(c: Config, to: Space, t0: Table, k: nat)
    requires FromSpaceTable(c, to, t0) && k in t0
    ensures t0[k].alignment > 0
  {}

  // Giving one more object its copy keeps the ledger.
  lemma MovedLedger(c: Config, to: Space, t0: Table, e: Evac, e1: Evac, k: nat, a: nat)
    requires ValidConfig(c, |e.mem|) && FromSpaceTable(c, to, t0) && Ledger(c, to, t0, e)
    requires k in t0 && Moved(c, to, e, e1, k, a)
    ensures Ledger(c, to, t0, e1)
  {
    hide IsPow2, AlignedTo, CopiesKept, CopiesApart, NothingElse, WellPlaced, Accounted;
    LedgerAt(c, to, t0, e, k);
    FreshCopy(c, to, t0, e, a, t0[k].size);
    OutsideTo(c, to, t0, k);
    MovedKeeps(c, to, t0, e, e1, k, a);
    MovedNothingElse(c, to, t0, e, e1, k, a);
    MovedAccounted(c, to, t0, e, e1, k, a);
  }

  lemma OriginalAt(t0: Table, e: Evac, k: nat)
    requires OriginalsKept(t0, e) && k in t0 && k in e.table
    ensures e.table[k] == t0[k] && k !in e.visited
  {}

  lemma OutsideTo(c: Config, to: Space, t0: Table, k: nat)
    requires SpacesApart(c)
    requires FromSpaceTable(c, to, t0) && k in t0
    ensures !c.InSpace(to, k) && c.InSpace(to.Other(), k)
    ensures forall j :: j in t0 ==> t0[j].size > 0
  {}

  lemma MovedKeeps(c: Config, to: Space, t0: Table, e: Evac, e1: Evac, k: nat, a: nat)
    requires OriginalsKept(t0, e) && CopiesKept(c, to, t0, e) && CopiesApart(t0, e.visited)
    requires k in t0 && Moved(c, to, e, e1, k, a) && a !in e.table && a !in t0
    requires !c.InSpace(to, k) && e.next <= c.heapSize && forall j :: j in t0 ==> t0[j].size > 0
    ensures CopiesKept(c, to, t0, e1) && CopiesApart(t0, e1.visited)
  {
    hide IsPow2, AlignedTo, OriginalsKept;
    OriginalAt(t0, e, k);
    forall j | j in e.visited && j in t0
      ensures e.visited[j] != k && e.visited[j] != a
      ensures CopyPlaced(c, to, t0[j], e.visited[j], e1.next)
      ensures Apart(e.visited[j], t0[j].size, a, t0[k].size)
    {
      assert CopyPlaced(c, to, t0[j], e.visited[j], e.next);
    }
  }

  lemma MovedAccounted(c: Config, to: Space, t0: Table, e: Evac, e1: Evac, k: nat, a: nat)
    requires OriginalsKept(t0, e) && Accounted(t0, e) && k in t0 && Moved(c, to, e, e1, k, a)
    ensures Accounted(t0, e1)
  {
    OriginalAt(t0, e, k);
    SumAdd(t0, e.visited.Keys, k, false);
    SumAdd(t0, e.visited.Keys, k, true);
    assert e1.visited.Keys == e.visited.Keys + {k};
  }

  lemma MovedNothingElse(c: Config, to: Space, t0: Table, e: Evac, e1: Evac, k: nat, a: nat)
    requires NothingElse(t0, e) && k in t0 && Moved(c, to, e, e1, k, a)
    ensures NothingElse(t0, e1)
  {
    hide CopyPlaced;
    assert e1.visited[k] == a;
    forall x | x in e1.table && x !in t0
      ensures IsCopy(e1.visited, x)
    {
      if x != a {
        var j :| j in e.visited && e.visited[j] == x;
        assert e1.visited[j] == x;
      }
    }
  }

  // ---- A whole collection ----

  predicate OutOfRoom(fault: Fault) {
    fault == BadAlloc || fault == BadOptionalAccess
  }

  // The collection only goes forward: copies stay where they are.
  ghost predicate Extends(e: Evac, e1: Evac) {
    && e.next <= e1.next && e.visited.Keys <= e1.visited.Keys
    && forall k :: k in e.visited ==> e1.visited[k] == e.visited[k]
  }

  // The objects copied so far and one more, each with the most padding it can need, fill a space; the
  // bump index has counted no more than these.
  ghost predicate Full(c: Config, t0: Table, e: Evac) {
    exists v :: v in t0 && v !in e.visited && e.visited.Keys <= t0.Keys && FillsWith(c, t0, e.visited.Keys, v, e.next)
  }

  ghost predicate FillsWith(c: Config, t0: Table, ks: set<nat>, v: nat, next: nat)
    requires ks <= t0.Keys && v in t0
  {
    Sum(t0, ks + {v}, true) >= c.heapSize && Sum(t0, ks, false) <= next <= Sum(t0, ks + {v}, true)
  }

  // There is room for every managed object, however it gets padded.
  ghost predicate Roomy(c: Config, t0: Table) {
    Sum(t0, t0.Keys, true) < c.heapSize
  }

  lemma RoomyIsNotFull(c: Config, t0: Table, e: Evac)
    requires Full(c, t0, e)
    ensures !Roomy(c, t0)
  {
    hide Sum;
    var v :| v in t0 && v !in e.visited && FillsWith(c, t0, e.visited.Keys, v, e.next);
    SumMonotone(t0, e.visited.Keys + {v}, t0.Keys, true);
  }

  lemma StepLedger(c: Config, to: Space, scan: Scanning, t0: Table, e: Evac, stack: seq<nat>)
    requires ValidConfig(c, |e.mem|) && FromSpaceTable(c, to, t0) && Ledger(c, to, t0, e) && stack != []
    ensures var r := Step(c, to, scan, e, stack);
      && |r.e.mem| == |e.mem| && Extends(e, r.e)
      && (r.Next? ==> Ledger(c, to, t0, r.e))
      && (r.Halt? ==> OutOfRoom(r.fault) && Books(c, to, t0, r.e) && Full(c, t0, r.e))
  {
    hide Ledger, IsPow2, IsSlot, Target, Cas, CopyObject, FromSpaceTable, Full, ScanMemory;
    var s := stack[|stack| - 1];
    var v := Target(e.mem, s);
    if IsSlot(e.mem, s) {
      if v in e.visited {
        LedgerOf(c, to, t0, e, e.(mem := Cas(e.mem, s, v, e.visited[v])));
      } else if v in e.table && !c.InSpace(to, v) {
        PendingIsOriginal(c, to, t0, e, v);
        StepCopies(c, to, t0, e, s, v);
      }
    }
  }

  // The ledger does not read memory.
  lemma LedgerOf(c: Config, to: Space, t0: Table, e: Evac, e1: Evac)
    requires Ledger(c, to, t0, e) && e1 == e.(mem := e1.mem)
    ensures Ledger(c, to, t0, e1)
  {
    hide Apart, CopyPlaced, Sum;
  }

  lemma PendingIsOriginal(c: Config, to: Space, t0: Table, e: Evac, v: nat)
    requires ValidConfig(c, |e.mem|) && FromSpaceTable(c, to, t0) && Ledger(c, to, t0, e)
    requires v in e.table && !c.InSpace(to, v)
    ensures v in t0 && c.Contains(v)
  {
    hide IsPow2, AlignedTo;
  }

  lemma StepCopies(c: Config, to: Space, t0: Table, e: Evac, s: nat, v: nat)
    requires ValidConfig(c, |e.mem|) && FromSpaceTable(c, to, t0) && Ledger(c, to, t0, e)
    requires v in t0 && v in e.table
    ensures var r := CopyObject(c, to, e, s, v);
      && |r.e.mem| == |e.mem| && Extends(e, r.e)
      && (r.Done? ==> Ledger(c, to, t0, r.e))
      && (r.Faulted? ==> OutOfRoom(r.fault) && Books(c, to, t0, r.e) && Full(c, t0, r.e))
  {
    hide Ledger, IsPow2, FromSpaceTable, Cas, CopyObject, Moved, Padding, AtomicCopy.Copy, Books, Full;
    CopyObjectMoves(c, to, t0, e, s, v);
    var r := CopyObject(c, to, e, s, v);
    if r.Done? {
      MovedExtends(c, to, e, r.e, v, c.Base(to) + e.next + Padding(c.Base(to) + e.next, t0[v].alignment));
      MovedLedger(c, to, t0, e, r.e, v, c.Base(to) + e.next + Padding(c.Base(to) + e.next, t0[v].alignment));
    } else {
      FaultMeansFull(c, to, t0, e, r.e, v);
      KeptOf(c, to, t0, e, r.e);
    }
  }

  lemma MovedExtends(c: Config, to: Space, e: Evac, e1: Evac, k: nat, a: nat)
    requires Moved(c, to, e, e1, k, a)
    ensures Extends(e, e1)
  {
    hide Weight, CopyPlaced;
  }

  lemma KeptOf(c: Config, to: Space, t0: Table, e: Evac, e1: Evac)
    requires Ledger(c, to, t0, e) && e1.table == e.table && e1.visited == e.visited && e.next <= e1.next <= c.heapSize
    ensures Books(c, to, t0, e1)
  {
    hide Apart, Accounted;
  }

  lemma FaultMeansFull(c: Config, to: Space, t0: Table, e: Evac, e1: Evac, v: nat)
    requires ValidConfig(c, |e.mem|) && FromSpaceTable(c, to, t0) && Ledger(c, to, t0, e)
    requires v in t0 && v in e.table
    requires e.next + Padding(c.Base(to) + e.next, t0[v].alignment) + t0[v].size >= c.heapSize
    requires e1.visited == e.visited && (e1.next == e.next || e1.next == c.heapSize)
    ensures Full(c, t0, e1)
  {
    hide IsPow2, CopiesKept, CopiesApart, NothingElse, Padding, Sum;
    PaddingAligns(c.Base(to) + e.next, t0[v].alignment);
    SumAdd(t0, e.visited.Keys, v, true);
    assert FillsWith(c, t0, e.visited.Keys, v, e1.next);
  }

  // One forward_ptr call keeps the ledger; it can only fail by running out of room.
  lemma {:induction false} ForwardLedger(c: Config, to: Space, scan: Scanning, t0: Table, e: Evac, stack: seq<nat>)
    requires ValidConfig(c, |e.mem|) && FromSpaceTable(c, to, t0) && Ledger(c, to, t0, e)
    ensures var r := Forward(c, to, scan, e, stack);
      && |r.e.mem| == |e.mem| && Extends(e, r.e)
      && (r.Done? ==> Ledger(c, to, t0, r.e))
      && (r.Faulted? ==> OutOfRoom(r.fault) && Books(c, to, t0, r.e) && Full(c, t0, r.e))
    decreases Pending(c, to, e.table), |stack|
  {
    hide Ledger, FromSpaceTable, Step, Full, Books, Pending;
    if stack != [] {
      StepLedger(c, to, scan, t0, e, stack);
      var r := Step(c, to, scan, e, stack);
      if r.Next? {
        ForwardLedger(c, to, scan, t0, r.e, r.stack);
      }
    }
  }

  lemma {:induction false} RootsLedger(c: Config, to: Space, scan: Scanning, t0: Table, e: Evac, roots: seq<nat>)
    requires ValidConfig(c, |e.mem|) && FromSpaceTable(c, to, t0) && Ledger(c, to, t0, e)
    ensures var r := ForwardRoots(c, to, scan, e, roots);
      && |r.e.mem| == |e.mem| && Extends(e, r.e)
      && (r.Done? ==> Ledger(c, to, t0, r.e))
      && (r.Faulted? ==> OutOfRoom(r.fault) && Books(c, to, t0, r.e) && Full(c, t0, r.e))
    decreases |roots|
  {
    hide Ledger, FromSpaceTable, Forward, Full, Books, IsSlot, Target;
    if roots != [] {
      if IsSlot(e.mem, roots[0]) && c.Contains(Target(e.mem, roots[0])) {
        ForwardLedger(c, to, scan, t0, e, [roots[0]]);
        var r := Forward(c, to, scan, e, [roots[0]]);
        if r.Done? {
          RootsLedger(c, to, scan, t0, r.e, roots[1..]);
        }
      } else {
        RootsLedger(c, to, scan, t0, e, roots[1..]);
      }
    }
  }
}
