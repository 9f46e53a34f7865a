/**
 Concrete heaps: a list that loses its tail, a stale pointer that becomes an edge, and an
 allocation that fails although a collection would have made room.
 */
module Scenarios {
  import opened Bits
  import opened FatPtrs
  import opened Heaps
  import opened Ledgers
  import opened Evacuation
  import opened Collections
  import opened Searches
  import opened EvacuationOrder
  import opened TwoCollections
  import opened Runs
  import opened Completeness

  // ---- Memory with a few slots ----

  const ROOT: nat := 0x100
  const ROOT2: nat := 0x200

  function PutSlot(m: Memory, a: nat, p: nat): (r: Memory)
    ensures |r| == |m|
  {
    PutWord(PutWord(m, a, PTR_HEADER), a + 8, FatWord(p))
  }

  function ZeroByte(i: nat): Byte { 0 }

  function ZeroMemory(): (m: Memory)
    ensures |m| == 0x3008
  {
    seq(0x3008, i requires 0 <= i => ZeroByte(i))
  }

  lemma PutSlotReads(m: Memory, a: nat, p: nat)
    requires a + 16 <= |m| && p < ADDRESS_LIMIT
    ensures IsSlot(PutSlot(m, a, p), a) && Target(PutSlot(m, a, p), a) == p
    ensures SameExcept(m, PutSlot(m, a, p), a, 16)
  {
    var m1 := PutWord(m, a, PTR_HEADER);
    var m2 := PutSlot(m, a, p);
    PutWordReads(m, a, PTR_HEADER);
    FatWordIsTagged(p);
    PutWordReads(m1, a + 8, FatWord(p));
    LeSame(m1, a, m2, a, 8);
    TaggedWord(m2, a + 8, p);
  }

  // Writing one slot leaves a distant one as it is.
  lemma OtherSlot(m: Memory, m1: Memory, a: nat, n: nat, b: nat)
    requires SameExcept(m, m1, a, n) && (b + 16 <= a || a + n <= b)
    ensures IsSlot(m1, b) == IsSlot(m, b) && Target(m1, b) == Target(m, b)
  {
    hide IsSlot, Target;
    assert SameBytes(m, b, m1, b, 16);
    SlotFrame(m, b, m1, b);
  }

  // ---- A list of two nodes ----

  const NODE_A: nat := 0x1000
  const NODE_B: nat := 0x1018
  const LIST_CONFIG := Config(0x1000, 0x2000, 0x1000, 0x800)

  // One root names node A, whose first field names node B; node B holds no pointer.
  function ListState(): State {
    State(PutSlot(PutSlot(ZeroMemory(), ROOT, NODE_A), NODE_A, NODE_B), 0x30, 0, Zero,
          map[NODE_A := MetaData(24, 8), NODE_B := MetaData(24, 8)])
  }

  lemma ListMemory()
    ensures var m := ListState().mem;
      && |m| == 0x3008
      && IsSlot(m, ROOT) && Target(m, ROOT) == NODE_A && IsSlot(m, NODE_A) && Target(m, NODE_A) == NODE_B
      && (forall i :: NODE_A + 16 <= i ==> At(m, i) == 0)
  {
    var z := ZeroMemory();
    assert forall i :: At(z, i) == 0;
    hide IsSlot, Target, PutSlot, ZeroMemory;
    var m1 := PutSlot(z, ROOT, NODE_A);
    PutSlotReads(z, ROOT, NODE_A);
    PutSlotReads(m1, NODE_A, NODE_B);
    var m := ListState().mem;
    assert SameBytes(m1, ROOT, m, ROOT, 16);
    SlotFrame(m1, ROOT, m, ROOT);
  }

  lemma LowByte(m: Memory, a: int, n: nat)
    requires n > 0
    ensures At(m, a) == Le(m, a, n) % 256 && Le(m, a + 1, n - 1) == Le(m, a, n) / 256
  {}

  // The low byte of the header does not occur again in the header.
  lemma HeaderBytes(m: Memory, a: int, i: nat)
    requires Le(m, a, 8) == PTR_HEADER && 1 <= i <= 7
    ensures At(m, a + i) != 0x73
  {
    hide Le, At;
    LowByte(m, a, 8);
    assert Le(m, a + 1, 7) == 0x70_6F69_6E74_6572;
    LowByte(m, a + 1, 7);
    assert Le(m, a + 2, 6) == 0x706F_696E_7465;
    LowByte(m, a + 2, 6);
    LowByte(m, a + 3, 5);
    assert Le(m, a + 4, 4) == 0x706F_696E;
    LowByte(m, a + 4, 4);
    LowByte(m, a + 5, 3);
    LowByte(m, a + 6, 2);
    LowByte(m, a + 7, 1);
  }

  lemma SlotStart(m: Memory, a: int, b: int)
    requires IsSlot(m, a) && Target(m, a) % 256 != 0x73 && a <= b <= a + 8
    ensures IsSlot(m, b) ==> b == a
  {
    hide Le, At;
    LowByte(m, a + 8, 7);
    LowByte(m, b, 8);
    if a < b < a + 8 {
      HeaderBytes(m, a, b - a);
    }
  }

  lemma ZeroNoSlot(m: Memory, b: int)
    requires At(m, b) == 0
    ensures !IsSlot(m, b)
  {
    LowByte(m, b, 8);
  }

  lemma ListSlots(k: nat, b: nat)
    requires var t := ListState().table; k in t && k <= b && b + 16 <= k + t[k].size && IsSlot(ListState().mem, b)
    ensures k == b == NODE_A
  {
    hide IsSlot, Target, PutSlot, ZeroMemory;
    var m := ListState().mem;
    ListMemory();
    if k == NODE_A {
      SlotStart(m, NODE_A, b);
    } else {
      ZeroNoSlot(m, b);
    }
  }

  lemma ListFits()
    ensures var s := ListState(); Invariant(LIST_CONFIG, s) && LiveSlack(LIST_CONFIG, s.mem, s.table, [ROOT])
  {
    hide PutSlot, ZeroMemory, Reachable, WellPlaced;
    var s := ListState();
    var t := s.table;
    TwoNodes(t);
    SumMonotone(t, Live(s.mem, t, [ROOT]), t.Keys, true);
  }

  lemma TwoNodes(t: Table)
    requires t == map[NODE_A := MetaData(24, 8), NODE_B := MetaData(24, 8)]
    ensures Sum(t, t.Keys, true) == 62 && WellPlaced(LIST_CONFIG, Zero, t, 0x30)
  {
    assert Pow2(3) == 8 && IsPow2(8) by { assert Pow2(0) == 1 && Pow2(1) == 2 && Pow2(2) == 4; }
    assert t.Keys == {NODE_A, NODE_B};
    SumRemove(t, t.Keys, NODE_A, true);
    SumRemove(t, t.Keys - {NODE_A}, NODE_B, true);
    assert t.Keys - {NODE_A} - {NODE_B} == {};
  }

  lemma ListClean()
    ensures RootPlaces(LIST_CONFIG, 0x3008, [ROOT]) && NoStalePointers(LIST_CONFIG, ListState(), [ROOT])
  {
    hide IsSlot, Target, PutSlot, ZeroMemory;
    var s := ListState();
    ListMemory();
    forall k: nat, b: nat | k in s.table && k <= b && b + 16 <= k + s.table[k].size && IsSlot(s.mem, b)
      ensures !LIST_CONFIG.InSpace(One, Target(s.mem, b))
    {
      ListSlots(k, b);
    }
  }

  // The second node is reachable, the first collection copies it, and the second one drops it.
  lemma ListLosesItsTail()
    ensures var s := ListState(); var s1 := Collect(LIST_CONFIG, OfOriginal, s, [ROOT]);
      && Invariant(LIST_CONFIG, s) && RootPlaces(LIST_CONFIG, |s.mem|, [ROOT])
      && Fits(LIST_CONFIG, OfOriginal, s, [ROOT]) && Fits(LIST_CONFIG, OfOriginal, s1, [ROOT])
      && Reachable(s.mem, s.table, [ROOT], NODE_B)
      && var v1 := Evacuate(LIST_CONFIG, OfOriginal, s, [ROOT]).e.visited;
         NODE_B in v1 && v1[NODE_B] !in Evacuate(LIST_CONFIG, OfOriginal, s1, [ROOT]).e.visited
  {
    hide IsSlot, Target, PutSlot, ZeroMemory, Evacuate, Collect, NoStalePointers, Invariant, Fits, RootPlaces;
    hide LiveSlack, StaleField, StaleRoot, Reachable, NamedByRoot, HalfDone, TableOfCopies;
    var s := ListState();
    ListMemory();
    ListFits();
    ListClean();
    ListReaches();
    LiveSlackFits(LIST_CONFIG, s, [ROOT]);
    LiveSlackAfter(LIST_CONFIG, s, [ROOT]);
    CollectedInvariant(LIST_CONFIG, s, [ROOT]);
    LiveSlackFits(LIST_CONFIG, Collect(LIST_CONFIG, OfOriginal, s, [ROOT]), [ROOT]);
    CleanIsNotStale(LIST_CONFIG, s, [ROOT]);
    SurvivesTwice(LIST_CONFIG, s, [ROOT], NODE_B);
  }

  lemma CollectedInvariant(c: Config, s: State, roots: seq<nat>)
    requires Invariant(c, s) && Fits(c, OfOriginal, s, roots)
    ensures var s1 := Collect(c, OfOriginal, s, roots); Invariant(c, s1) && |s1.mem| == |s.mem|
  {
    hide Invariant, Evacuate, Collect, HalfDone, TableOfCopies, Full, Sum;
    CollectionOutcome(c, OfOriginal, s, roots);
  }

  lemma ListReaches()
    ensures var s := ListState();
      Reachable(s.mem, s.table, [ROOT], NODE_B) && !NamedByRoot(s.mem, [ROOT], NODE_B)
  {
    hide IsSlot, Target, PutSlot, ZeroMemory, Reachable;
    var s := ListState();
    ListMemory();
    RootReaches(s.mem, s.table, [ROOT], ROOT);
    assert FieldSlot(s.mem, s.table, NODE_A, NODE_A);
    FieldReaches(s.mem, s.table, [ROOT], NODE_A, NODE_A);
  }

  // ---- A stale pointer ----

  // Where the second of two such nodes is copied to.
  const STALE: nat := 0x2018

  // Two unconnected nodes, each named by a root; the first holds a pointer left over from before.
  function StaleState(): State {
    State(PutSlot(PutSlot(PutSlot(ZeroMemory(), ROOT, NODE_A), ROOT2, NODE_B), NODE_A, STALE), 0x30, 0, Zero,
          map[NODE_A := MetaData(24, 8), NODE_B := MetaData(24, 8)])
  }

  lemma StaleMemory()
    ensures var m := StaleState().mem;
      && |m| == 0x3008
      && IsSlot(m, ROOT) && Target(m, ROOT) == NODE_A && IsSlot(m, ROOT2) && Target(m, ROOT2) == NODE_B
      && IsSlot(m, NODE_A) && Target(m, NODE_A) == STALE
  {
    hide IsSlot, Target, PutSlot, ZeroMemory;
    var z := ZeroMemory();
    var m1 := PutSlot(z, ROOT, NODE_A);
    var m2 := PutSlot(m1, ROOT2, NODE_B);
    var m3 := PutSlot(m2, NODE_A, STALE);
    PutSlotReads(z, ROOT, NODE_A);
    PutSlotReads(m1, ROOT2, NODE_B);
    PutSlotReads(m2, NODE_A, STALE);
    OtherSlot(m1, m2, ROOT2, 16, ROOT);
    OtherSlot(m2, m3, NODE_A, 16, ROOT);
    OtherSlot(m2, m3, NODE_A, 16, ROOT2);
  }

  lemma StaleFits()
    ensures var s := StaleState();
      && Invariant(LIST_CONFIG, s) && RootPlaces(LIST_CONFIG, |s.mem|, [ROOT, ROOT2])
      && LiveSlack(LIST_CONFIG, s.mem, s.table, [ROOT, ROOT2])
  {
    hide PutSlot, ZeroMemory, Reachable, WellPlaced, Sum;
    var s := StaleState();
    var t := s.table;
    TwoNodes(t);
    SumMonotone(t, Live(s.mem, t, [ROOT, ROOT2]), t.Keys, true);
  }

  // Two such nodes, in either order, end at the same index.
  lemma TwoLaid(t: Table, j: nat, k: nat)
    requires j in t && k in t && t[j] == MetaData(24, 8) && t[k] == MetaData(24, 8)
    ensures LayoutEnd(0x2000, t, [j, k]) == 0x30
  {
    hide LayoutEnd, Padding;
    LayoutGrows(0x2000, t, [], j);
    LayoutGrows(0x2000, t, [j], k);
    assert [] + [j] == [j] && [j] + [k] == [j, k];
    assert LayoutEnd(0x2000, t, []) == 0 by { NothingLaid(0x2000, t); }
    assert Padding(0x2000, 8) == 0 && Padding(0x2018, 8) == 0 by { NoPadding(); }
  }

  lemma NoPadding()
    ensures Padding(0x2000, 8) == 0 && Padding(0x2018, 8) == 0
  {}

  lemma {:induction false} DistinctLength(order: seq<nat>)
    requires forall i, j :: 0 <= i < j < |order| ==> order[i] != order[j]
    ensures |Elems(order)| == |order|
    decreases |order|
  {
    if order == [] {
      assert Elems(order) == {};
    } else {
      var front, k := order[..|order| - 1], order[|order| - 1];
      DistinctLength(front);
      assert k !in Elems(front) && Elems(order) == Elems(front) + {k};
    }
  }

  lemma TwoDistinct(order: seq<nat>)
    requires Elems(order) == {NODE_A, NODE_B} && forall i, j :: 0 <= i < j < |order| ==> order[i] != order[j]
    ensures |order| == 2 && order[0] in {NODE_A, NODE_B} && order[1] in {NODE_A, NODE_B}
  {
    DistinctLength(order);
    assert forall i :: 0 <= i < |order| ==> order[i] in Elems(order);
  }

  // The collection copies both nodes, one of them to the address the first node's field holds. So after
  // it that field names a managed object, although no mutator made the edge.
  lemma StaleFieldMakesAnEdge()
    ensures var s := StaleState(); var s1 := Collect(LIST_CONFIG, OfOriginal, s, [ROOT, ROOT2]);
      var visited := Evacuate(LIST_CONFIG, OfOriginal, s, [ROOT, ROOT2]).e.visited;
      && Invariant(LIST_CONFIG, s) && Fits(LIST_CONFIG, OfOriginal, s, [ROOT, ROOT2])
      && NODE_A in visited && StaleField(s.mem, s.table, visited, NODE_A, 0)
      && Target(s.mem, NODE_A) !in s.table
      && FieldSlot(s1.mem, s1.table, visited[NODE_A], visited[NODE_A])
      && Target(s1.mem, visited[NODE_A]) in s1.table
  {
    hide IsSlot, Target, PutSlot, ZeroMemory, Evacuate, Collect, Invariant, Fits, RootPlaces, LiveSlack, Reachable;
    hide FieldSlot, LayoutEnd, Holds, Spills, Order;
    var s, roots := StaleState(), [ROOT, ROOT2];
    StaleMemory();
    StaleFits();
    LiveSlackFits(LIST_CONFIG, s, roots);
    CollectionFollowsOrder(LIST_CONFIG, s, roots);
    OrderExact(s, roots);
    RootReaches(s.mem, s.table, roots, ROOT);
    RootReaches(s.mem, s.table, roots, ROOT2);
    var order := Order(s, roots);
    assert Elems(order) == {NODE_A, NODE_B};
    var visited := Evacuate(LIST_CONFIG, OfOriginal, s, roots).e.visited;
    StalePlaces(visited, order);
    EdgesAfter(LIST_CONFIG, s, roots, NODE_A, 0);
  }

  // Wherever the two nodes are laid, one lies at the stale address and both are aligned.
  lemma StalePlaces(visited: map<nat, nat>, order: seq<nat>)
    requires Elems(order) == {NODE_A, NODE_B} && forall i, j :: 0 <= i < j < |order| ==> order[i] != order[j]
    requires visited.Keys == Elems(order) && Laid(0x2000, StaleState().table, visited, order)
    ensures NODE_A in visited && visited[NODE_A] % 8 == 0 && IsCopy(visited, STALE)
  {
    hide PutSlot, ZeroMemory, LayoutEnd;
    TwoDistinct(order);
    var t := StaleState().table;
    assert order == [order[0], order[1]] && order[..2] == order && order[..1] == [order[0]];
    TwoLaid(t, order[0], order[1]);
    OneLaid(t, order[0]);
    assert LaidAt(0x2000, t, visited, order, 0) && LaidAt(0x2000, t, visited, order, 1);
    assert visited[order[1]] == STALE && visited[order[0]] == 0x2000;
    assert NODE_A in Elems(order);
  }

  lemma OneLaid(t: Table, j: nat)
    requires j in t && t[j] == MetaData(24, 8)
    ensures LayoutEnd(0x2000, t, [j]) == 0x18
  {
    hide LayoutEnd, Padding;
    LayoutGrows(0x2000, t, [], j);
    assert [] + [j] == [j];
    assert LayoutEnd(0x2000, t, []) == 0 by { NothingLaid(0x2000, t); }
    assert Padding(0x2000, 8) == 0 by { NoPadding(); }
  }

  // ---- Padding that does not fit ----

  // One unreachable object fills the space up to 8 bytes below the allocation limit.
  function FilledState(mem: Memory): State {
    State(mem, 0x7F8, 0, Zero, map[NODE_A := MetaData(0x7F8, 8)])
  }

  // 8 bytes are asked for, aligned to 16, and 8 bytes are free, but not aligned ones. No collection is
  // started and the call throws, although after a collection it succeeds.
  lemma GcAllocPassesUpRoom(mem: Memory)
    requires |mem| == 0x3008
    ensures var s := FilledState(mem); var s1 := Collect(LIST_CONFIG, OfOriginal, s, []);
      && RunInvariant(LIST_CONFIG, s) && FreeSpace(LIST_CONFIG, s) == 8
      && GcAlloc(LIST_CONFIG, s, [], 8, 16) == Refused(s, BadOptionalAccess)
      && GcAlloc(LIST_CONFIG, s1, [], 8, 16).Allocated?
  {
    hide Collect, Evacuate, GcAlloc, RunInvariant, IsPow2, Order, Inside, Holds, Spills;
    var c, s := LIST_CONFIG, FilledState(mem);
    FilledSound(mem);
    GcAllocExact(c, s, [], 8, 16);
    EmptyOrder(s);
    RunInvariantHeap(c, s);
    CollectionFollowsOrder(c, s, []);
    SpareHolds(c, c.base1, s.table, []);
    CollectKeeps(c, OfOriginal, s, []);
    CollectedNext(c, s, []);
    var s1 := Collect(c, OfOriginal, s, []);
    CollectedInvariant(c, s, []);
    GcAllocExact(c, s1, [], 8, 16);
  }

  lemma EmptyOrder(s: State)
    ensures Order(s, []) == [] && LayoutEnd(0x2000, s.table, []) == 0
  {}

  lemma FilledSound(mem: Memory)
    requires |mem| == 0x3008
    ensures RunInvariant(LIST_CONFIG, FilledState(mem)) && IsPow2(16)
    ensures Padding(0x17F8, 16) == 8 && Padding(0x2000, 16) == 0
  {
    assert Pow2(0) == 1 && Pow2(1) == 2 && Pow2(2) == 4 && Pow2(3) == 8 && Pow2(4) == 16;
    assert IsPow2(8);
  }
}
