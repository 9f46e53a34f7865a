/**
 A run in one-page spaces: 32 allocations fill half a space exactly, a collection that meets
 them in another order runs out of room, and the next one reports heap corruption.
 */
module FailingRun {
  import opened Bits
  import opened FatPtrs
  import AtomicCopy
  import opened Heaps
  import opened Ledgers
  import opened Evacuation
  import opened Retention
  import opened Collections
  import opened Searches
  import opened EvacuationOrder
  import opened Runs
  import opened Scenarios

  const N: nat := 32

  // ---- The objects ----

  // One byte at each multiple of 128, aligned to 256 or 128 as its address allows, and 127 bytes behind it.
  function Bump(i: nat): nat {
    if i % 2 == 0 then 64 * i else 64 * (i - 1) + 1
  }

  function Spot(i: nat): nat {
    0x1000 + Bump(i)
  }

  function Meta(i: nat): MetaData {
    if i % 2 == 1 then MetaData(127, 1) else if i % 4 == 0 then MetaData(1, 256) else MetaData(1, 128)
  }

  function Objects(n: nat): Table {
    if n == 0 then map[] else Objects(n - 1)[Spot(n - 1) := Meta(n - 1)]
  }

  lemma SpotsDiffer(i: nat, j: nat)
    requires i < j
    ensures Spot(i) < Spot(j)
  {}

  lemma {:induction false} ObjectsAt(n: nat, i: nat)
    requires i < n
    ensures Spot(i) in Objects(n) && Objects(n)[Spot(i)] == Meta(i)
    decreases n
  {
    hide Spot, Meta;
    if i < n - 1 {
      ObjectsAt(n - 1, i);
      SpotsDiffer(i, n - 1);
    }
  }

  function AllocOf(i: nat): Op {
    AllocOp(Meta(i).size, Meta(i).alignment, [])
  }

  function Allocs(n: nat): (ops: seq<Op>)
    ensures |ops| == n
  {
    if n == 0 then [] else Allocs(n - 1) + [AllocOf(n - 1)]
  }

  // Each allocation lies where the one before it ends.
  lemma NoGap(i: nat)
    requires i < N
    ensures Padding(Spot(i), Meta(i).alignment) == 0 && Bump(i) + Meta(i).size == Bump(i + 1) <= 0x800
    ensures IsPow2(Meta(i).alignment) && 0 < Meta(i).size <= 0x800
  {
    assert Pow2(0) == 1 && Pow2(1) == 2 && Pow2(2) == 4 && Pow2(3) == 8 && Pow2(4) == 16;
    assert Pow2(5) == 32 && Pow2(6) == 64 && Pow2(7) == 128 && Pow2(8) == 256;
    var q := i / 4;
    assert i == 4 * q + i % 4;
  }

  lemma {:induction false} RunOneMore(c: Config, s: State, ops: seq<Op>, op: Op)
    ensures Run(c, s, ops + [op]) == Apply(c, Run(c, s, ops), op).0
    decreases |ops|
  {
    hide Apply;
    if ops == [] {
      assert ops + [op] == [op] && [op][1..] == [];
    } else {
      RunOneMore(c, Apply(c, s, ops[0]).0, ops[1..], op);
      assert (ops + [op])[1..] == ops[1..] + [op];
    }
  }

  function Filled(mem: Memory, n: nat): State {
    State(mem, Bump(n), 0, Zero, Objects(n))
  }

  // All allocations succeed.
  lemma AllocStep(mem: Memory, n: nat)
    requires n < N && RunInvariant(LIST_CONFIG, Filled(mem, n))
    ensures RunInvariant(LIST_CONFIG, Filled(mem, n + 1))
    ensures Apply(LIST_CONFIG, Filled(mem, n), AllocOf(n)) == (Filled(mem, n + 1), Pointer(Spot(n)))
  {
    hide RunInvariant, Alloc, Bump, Meta, IsPow2, Padding;
    NoGap(n);
    RunAlloc(LIST_CONFIG, Filled(mem, n), [], Meta(n).size, Meta(n).alignment);
    SameMeta(n);
  }

  lemma SameMeta(n: nat)
    ensures MetaData(Meta(n).size, Meta(n).alignment) == Meta(n)
  {}

  lemma {:induction false} AllocsRun(mem: Memory, n: nat)
    requires |mem| == 0x3008 && n <= N
    ensures Run(LIST_CONFIG, Filled(mem, 0), Allocs(n)) == Filled(mem, n)
    ensures RunInvariant(LIST_CONFIG, Filled(mem, n))
    decreases n
  {
    hide RunInvariant, Apply, Filled, AllocOf;
    if n == 0 {
      StartsSound(mem);
    } else {
      AllocsRun(mem, n - 1);
      AllocStep(mem, n - 1);
      RunOneMore(LIST_CONFIG, Filled(mem, 0), Allocs(n - 1), AllocOf(n - 1));
    }
  }

  lemma StartsSound(mem: Memory)
    requires |mem| == 0x3008
    ensures RunInvariant(LIST_CONFIG, Filled(mem, 0))
  {}

  // ---- The order in which the roots name them ----

  // First the bytes aligned to 256, then those aligned to 128, then the fillers from the last one down.
  function Index(j: nat): nat
    requires j < N
  {
    if j < 8 then 4 * j else if j < 16 then 4 * (j - 8) + 2 else 2 * (31 - j) + 1
  }

  function Name(j: nat): nat
    requires j < N
  {
    Spot(Index(j))
  }

  function NameAt(j: nat): nat {
    if j < N then Name(j) else 0
  }

  function Names(n: nat): seq<nat> {
    if n == 0 then [] else Names(n - 1) + [NameAt(n - 1)]
  }

  function RootAt(j: nat): nat {
    0x100 + 16 * j
  }

  function RootsTo(j: nat, n: nat): seq<nat>
    decreases n - j
  {
    if j >= n then [] else [RootAt(j)] + RootsTo(j + 1, n)
  }

  lemma NamesDiffer(i: nat, j: nat)
    requires i < j < N
    ensures Name(i) != Name(j)
  {
    hide Spot;
    if Index(i) < Index(j) {
      SpotsDiffer(Index(i), Index(j));
    } else {
      SpotsDiffer(Index(j), Index(i));
    }
  }

  lemma {:induction false} NamedOnce(n: nat, j: nat)
    requires n <= j < N
    ensures Name(j) !in Names(n)
    decreases n
  {
    hide Name;
    if n > 0 {
      NamedOnce(n - 1, j);
      NamesDiffer(n - 1, j);
    }
  }

  lemma {:induction false} NamesHold(n: nat, j: nat)
    requires j < n <= N
    ensures Name(j) in Names(n)
    decreases n
  {
    hide Name;
    if j < n - 1 {
      NamesHold(n - 1, j);
    }
  }

  // Root slots that name the objects in this order, and nothing else anywhere.
  ghost predicate Rooted(m: Memory) {
    && |m| == 0x3008
    && (forall j: nat :: j < N ==> RootNames(m, j))
    && (forall a :: 0x1000 <= a ==> At(m, a) == 0)
  }

  ghost predicate RootNames(m: Memory, j: nat)
    requires j < N
  {
    IsSlot(m, RootAt(j)) && Target(m, RootAt(j)) == Name(j)
  }

  function RootMemory(n: nat): Memory {
    if n == 0 then ZeroMemory() else PutSlot(RootMemory(n - 1), RootAt(n - 1), NameAt(n - 1))
  }

  lemma {:induction false} RootMemoryRooted(n: nat)
    requires n <= N
    ensures |RootMemory(n)| == 0x3008
    ensures forall j: nat :: j < n ==> RootNames(RootMemory(n), j)
    ensures forall a :: 0x1000 <= a ==> At(RootMemory(n), a) == 0
    decreases n
  {
    hide IsSlot, Target, PutSlot, Name, ZeroMemory;
    if n == 0 {
      ZeroReads();
    } else {
      RootMemoryRooted(n - 1);
      var m, m1 := RootMemory(n - 1), RootMemory(n);
      NameFits(n - 1);
      PutSlotReads(m, RootAt(n - 1), Name(n - 1));
      forall j: nat | j < n
        ensures RootNames(m1, j)
      {
        if j < n - 1 {
          assert RootNames(m, j);
          OtherSlot(m, m1, RootAt(n - 1), 16, RootAt(j));
        }
      }
    }
  }

  lemma ZeroReads()
    ensures forall a :: At(ZeroMemory(), a) == 0
  {}

  lemma NameFits(j: nat)
    requires j < N
    ensures 0x1000 <= Name(j) < 0x1800
  {}

  // ---- The search meets them in the order of the roots ----

  lemma {:induction false} BlankScan(m: Memory, p: nat, end: nat)
    requires 0x1000 <= p && forall a :: 0x1000 <= a ==> At(m, a) == 0
    ensures Scan(m, p, end) == []
    decreases end - p
  {
    hide IsSlot;
    if p + 16 < end {
      ZeroNoSlot(m, p);
      BlankScan(m, p + 8, end);
    }
  }

  lemma OneRootSearched(m: Memory, j: nat)
    requires Rooted(m) && j < N
    ensures Search(m, Objects(N), [RootAt(j)], Names(j)) == Names(j + 1)
  {
    hide IsSlot, Target, Scan, AlignUp8, Name, Index, Spot, RootAt, Objects;
    var t, order := Objects(N), Names(j);
    var v := Name(j);
    assert RootNames(m, j);
    NamedOnce(j, j);
    NameFits(j);
    NameManaged(j);
    AlignUpLeast(v, 0);
    AlignUpAbove(v);
    BlankScan(m, AlignUp8(v), v + t[v].size);
    assert ScanMemory(m, v, v + t[v].size) == [];
    var rest: seq<nat> := [RootAt(j)][..0];
    assert rest + ScanMemory(m, v, v + t[v].size) == [] && Names(j + 1) == order + [v];
    assert Turn(m, t, [RootAt(j)], order) == ([], Names(j + 1));
  }

  lemma AlignUpAbove(a: nat)
    ensures a <= AlignUp8(a)
  {}

  lemma NameManaged(j: nat)
    requires j < N
    ensures Name(j) in Objects(N) && Objects(N)[Name(j)] == Meta(Index(j))
  {
    hide Meta, Spot, Objects;
    ObjectsAt(N, Index(j));
  }

  lemma {:induction false} RootsSearched(m: Memory, j: nat, n: nat)
    requires Rooted(m) && j <= n <= N
    ensures SearchRoots(m, Objects(N), RootsTo(j, n), Names(j)) == Names(n)
    decreases n - j
  {
    hide Search, Rooted, Objects, Names, RootAt;
    if j < n {
      OneRootSearched(m, j);
      RootsSearched(m, j + 1, n);
      assert RootsTo(j, n)[1..] == RootsTo(j + 1, n);
    }
  }

  // ---- The layout ----

  // Each aligned byte costs its whole alignment, each filler its size.
  function After(j: nat): nat {
    if j == 0 then 0
    else if j <= 8 then 256 * (j - 1) + 1
    else if j <= 16 then 1793 + 128 * (j - 8)
    else 2817 + 127 * (j - 16)
  }

  lemma OneLaidOut(j: nat)
    requires j < N
    ensures After(j + 1) == After(j) + Padding(0x2000 + After(j), Meta(Index(j)).alignment) + Meta(Index(j)).size
  {
    if j < 8 {
      assert Meta(Index(j)) == MetaData(1, 256);
    } else if j < 16 {
      assert Meta(Index(j)) == MetaData(1, 128);
    } else {
      assert Meta(Index(j)) == MetaData(127, 1);
    }
  }

  lemma {:induction false} LaidOut(j: nat)
    requires j <= N
    ensures LayoutEnd(0x2000, Objects(N), Names(j)) == After(j)
    decreases j
  {
    hide LayoutEnd, After, Meta, Index, Name, Objects, Padding;
    if j == 0 {
      NothingLaid(0x2000, Objects(N));
      assert After(0) == 0 by { AfterNothing(); }
    } else {
      LaidOut(j - 1);
      NameManaged(j - 1);
      LayoutGrows(0x2000, Objects(N), Names(j - 1), Name(j - 1));
      OneLaidOut(j - 1);
    }
  }

  lemma AfterNothing()
    ensures After(0) == 0
  {}

  // ---- The first collection ----

  // How many objects find a place.
  const M: nat := 26

  lemma RootsOutside(n: nat)
    requires n <= N
    ensures RootPlaces(LIST_CONFIG, 0x3008, RootsTo(0, n))
  {
    forall r | r in RootsTo(0, n)
      ensures RootPlace(LIST_CONFIG, 0x3008, r)
    {
      RootPlaced(0, n, r);
    }
  }

  lemma {:induction false} RootPlaced(j: nat, n: nat, r: nat)
    requires n <= N && r in RootsTo(j, n)
    ensures RootPlace(LIST_CONFIG, 0x3008, r)
    decreases n - j
  {
    if r != RootAt(j) {
      RootPlaced(j + 1, n, r);
    }
  }

  lemma {:induction false} RootsContain(j: nat, n: nat, i: nat)
    requires j <= i < n
    ensures RootAt(i) in RootsTo(j, n)
    decreases n - j
  {
    if j < i {
      RootsContain(j + 1, n, i);
    }
  }

  lemma {:induction false} RootsSplit(j: nat, m: nat, n: nat)
    requires j <= m <= n
    ensures RootsTo(j, n) == RootsTo(j, m) + RootsTo(m, n)
    decreases m - j
  {
    if j < m {
      RootsSplit(j + 1, m, n);
    }
  }

  // Roots are forwarded one after the other.
  lemma {:induction false} RootsThen(c: Config, to: Space, e: Evac, xs: seq<nat>, ys: seq<nat>)
    requires ForwardRoots(c, to, OfOriginal, e, xs).Done?
    ensures ForwardRoots(c, to, OfOriginal, e, xs + ys)
      == ForwardRoots(c, to, OfOriginal, ForwardRoots(c, to, OfOriginal, e, xs).e, ys)
    decreases |xs|
  {
    hide Forward, IsSlot, Target;
    if xs == [] {
      assert xs + ys == ys;
    } else {
      assert (xs + ys)[1..] == xs[1..] + ys && (xs + ys)[0] == xs[0];
      if IsSlot(e.mem, xs[0]) && c.Contains(Target(e.mem, xs[0])) {
        RootsThen(c, to, Forward(c, to, OfOriginal, e, [xs[0]]).e, xs[1..], ys);
      } else {
        RootsThen(c, to, e, xs[1..], ys);
      }
    }
  }

  // The first 26 roots are served, and leave the bump index at 4087.
  lemma FirstFit(m: Memory)
    requires Rooted(m) && Invariant(LIST_CONFIG, Filled(m, N))
    ensures var s := Filled(m, N); var roots := RootsTo(0, M);
      && RootPlaces(LIST_CONFIG, 0x3008, roots) && Fits(LIST_CONFIG, OfOriginal, s, roots)
      && Evacuate(LIST_CONFIG, OfOriginal, s, roots).e.next == 4087
      && Evacuate(LIST_CONFIG, OfOriginal, s, roots).e.visited.Keys == Elems(Names(M))
  {
    hide Invariant, LayoutEnd, Holds, Spills, Laid, Evacuate, Fits, Objects, RootPlaces, Names, Bump, Rooted;
    var s := Filled(m, N);
    RootsOutside(M);
    assert |m| == 0x3008 by { RootedSize(m); }
    assert Names(0) == [] by { NoNames(); }
    RootsSearched(m, 0, M);
    assert Order(s, RootsTo(0, M)) == Names(M);
    LaidOut(M);
    SpareHolds(LIST_CONFIG, 0x2000, Objects(N), Names(M));
    CollectionFollowsOrder(LIST_CONFIG, s, RootsTo(0, M));
  }

  lemma RootedSize(m: Memory)
    requires Rooted(m)
    ensures |m| == 0x3008
  {
    hide RootNames;
  }

  lemma NoNames()
    ensures Names(0) == []
  {}

  // What the 27th root finds: its object is still where it was, and the slot still names it.
  lemma Refused27(m: Memory, e: Evac)
    requires Rooted(m) && Heap(LIST_CONFIG, One, m, Objects(N), e)
    requires e.next == 4087 && e.visited.Keys == Elems(Names(M))
    ensures Forward(LIST_CONFIG, One, OfOriginal, e, [RootAt(M)]) == Faulted(e, BadOptionalAccess)
    ensures IsSlot(e.mem, RootAt(M)) && LIST_CONFIG.Contains(Target(e.mem, RootAt(M)))
  {
    hide IsSlot, Target, Fixed, CopiesFaithful, UnvisitedUntouched, Inside, Objects, Names, Index, Name, Spot;
    var v, t := Name(M), Objects(N);
    assert RootNames(m, M);
    NamedOnce(M, M);
    assert v !in Elems(Names(M));
    SlotAt(LIST_CONFIG, One, m, e, RootAt(M));
    StillThere(m, e);
    NameFits(M);
    assert Padding(0x2000 + 4087, 1) == 0;
    assert CopyObject(LIST_CONFIG, One, e, RootAt(M), v) == Faulted(e, BadOptionalAccess);
    assert Step(LIST_CONFIG, One, OfOriginal, e, [RootAt(M)]) == Halt(e, BadOptionalAccess);
  }

  lemma StillThere(m: Memory, e: Evac)
    requires Heap(LIST_CONFIG, One, m, Objects(N), e) && e.visited.Keys == Elems(Names(M))
    ensures Name(M) in e.table && e.table[Name(M)] == MetaData(127, 1) && Name(M) !in e.visited
  {
    hide Heap, Objects, Names, Index, Name, IsPow2;
    HeapBooks(LIST_CONFIG, One, m, Objects(N), e);
    NameManaged(M);
    NamedOnce(M, M);
    assert Name(M) !in Elems(Names(M));
    EntryKept(LIST_CONFIG, One, Objects(N), e, Name(M));
    assert Meta(Index(M)) == MetaData(127, 1) by { FillerMeta(M); }
  }

  lemma FillerMeta(j: nat)
    requires 16 <= j < N
    ensures Meta(Index(j)) == MetaData(127, 1)
  {}

  lemma EntryKept(c: Config, to: Space, t0: Table, e: Evac, k: nat)
    requires Ledger(c, to, t0, e) && k in t0 && k !in e.visited
    ensures k in e.table && e.table[k] == t0[k]
  {
    hide CopiesKept, CopiesApart, NothingElse, Accounted;
  }

  // ---- What the failed collection leaves ----

  // One filler has its copy, which a root names; another one is still at the low end of the old space.
  ghost predicate LeftBehind(s: State, a: nat) {
    && s.active == One && s.next0 == 0 && |s.mem| == 0x3008
    && LIST_CONFIG.InSpace(One, a) && a in s.table && s.table[a] == MetaData(127, 1)
    && IsSlot(s.mem, RootAt(16)) && Target(s.mem, RootAt(16)) == a
    && Spot(1) in s.table && s.table[Spot(1)] == MetaData(127, 1)
  }

  lemma Leaves(m: Memory, e: Evac, s1: State)
    requires Rooted(m) && Heap(LIST_CONFIG, One, m, Objects(N), e) && e.visited.Keys == Elems(Names(M))
    requires Graph(LIST_CONFIG, One, m, Objects(N), RootsTo(0, M), RootsTo(0, M), e, [])
    requires s1.active == One && s1.next0 == 0 && s1.mem == e.mem && s1.table == e.table
    ensures Name(16) in e.visited && LeftBehind(s1, e.visited[Name(16)])
  {
    hide IsSlot, Target, Fixed, CopiesFaithful, UnvisitedUntouched, Inside, Objects, Names, Name, Index, IsPow2;
    hide FieldSlot, StackFine, Sound, OnlyForwarded, Meta, RootAt, RootsTo, Heap;
    HeapBooks(LIST_CONFIG, One, m, Objects(N), e);
    assert RootNames(m, 16) && |m| == 0x3008;
    NamesHold(M, 16);
    assert Name(16) in Elems(Names(M));
    RootsContain(0, M, 16);
    assert Settled(m, Objects(N), e, RootAt(16));
    NameManaged(16);
    FillerMeta(16);
    SettledSlot(m, e);
    CopyThere(LIST_CONFIG, One, Objects(N), e, Name(16));
    NameManaged(31);
    FillerMeta(31);
    NamedOnce(M, 31);
    assert Name(31) !in Elems(Names(M));
    EntryKept(LIST_CONFIG, One, Objects(N), e, Name(31));
    assert Name(31) == Spot(1) by { LastName(); }
  }

  lemma SettledSlot(m: Memory, e: Evac)
    requires Rooted(m) && Heap(LIST_CONFIG, One, m, Objects(N), e)
    ensures IsSlot(e.mem, RootAt(16))
  {
    hide IsSlot, Target, Fixed, CopiesFaithful, UnvisitedUntouched, Inside, Objects, Name, Index;
    assert RootNames(m, 16);
    SlotAt(LIST_CONFIG, One, m, e, RootAt(16));
  }

  lemma LastName()
    ensures Name(31) == Spot(1)
  {}

  lemma CopyThere(c: Config, to: Space, t0: Table, e: Evac, k: nat)
    requires Ledger(c, to, t0, e) && k in e.visited && k in t0 && t0[k].size > 0
    ensures e.visited[k] in e.table && e.table[e.visited[k]] == t0[k] && c.InSpace(to, e.visited[k])
  {
    hide CopiesApart, NothingElse, Accounted, AlignedTo;
  }

  lemma FirstCollectionFails(m: Memory)
    requires Rooted(m) && Invariant(LIST_CONFIG, Filled(m, N))
    ensures var s := Filled(m, N); var o := Evacuate(LIST_CONFIG, OfOriginal, s, RootsTo(0, N));
      && o.Faulted? && o.fault == BadOptionalAccess
      && exists a: nat :: LeftBehind(Collect(LIST_CONFIG, OfOriginal, s, RootsTo(0, N)), a)
  {
    hide Invariant, Fits, Objects, Names, Bump, Rooted, Heap, Graph, ForwardRoots, Forward, LeftBehind, IsSlot, Target;
    var s, roots := Filled(m, N), RootsTo(0, M);
    FirstFit(m);
    assert |m| == 0x3008 by { RootedSize(m); }
    EndHeap(LIST_CONFIG, s, roots);
    var e := Evacuate(LIST_CONFIG, OfOriginal, s, roots).e;
    Refused27(m, e);
    RootsSplit(0, M, N);
    RootsThen(LIST_CONFIG, One, Start(s), roots, RootsTo(M, N));
    StopsThere(e);
    var s1 := Collect(LIST_CONFIG, OfOriginal, s, RootsTo(0, N));
    Leaves(m, e, s1);
  }

  lemma StopsThere(e: Evac)
    requires Forward(LIST_CONFIG, One, OfOriginal, e, [RootAt(M)]) == Faulted(e, BadOptionalAccess)
    requires IsSlot(e.mem, RootAt(M)) && LIST_CONFIG.Contains(Target(e.mem, RootAt(M)))
    ensures ForwardRoots(LIST_CONFIG, One, OfOriginal, e, RootsTo(M, N)) == Faulted(e, BadOptionalAccess)
  {
    hide IsSlot, Target, Forward;
    assert RootsTo(M, N)[0] == RootAt(M);
  }

  // ---- The second collection ----

  // It starts at index 0 of the space where the other filler was left behind.
  lemma SecondCollectionCorrupts(s: State, a: nat)
    requires LeftBehind(s, a)
    ensures var o := Evacuate(LIST_CONFIG, OfOriginal, s, [RootAt(16)]); o.Faulted? && o.fault == HeapCorruption
  {
    hide IsSlot, Target, Cas, AtomicCopy.Copy;
    var r := RootAt(16);
    var e := Evac(s.mem, 0, s.table, map[]);
    assert Padding(0x1000, 1) == 0;
    assert Spot(1) == 0x1001;
    assert OverlapsEntry(Spot(1), s.table[Spot(1)].size, 0x1000, 127);
    assert Overlaps(s.table, 0x1000, 127);
    assert CopyObject(LIST_CONFIG, Zero, e, r, a).Faulted?;
    assert Step(LIST_CONFIG, Zero, OfOriginal, e, [r]).Halt?;
  }

  // ---- The run ----

  function FailingOps(): (ops: seq<Op>)
    ensures |ops| == N + 2
  {
    Allocs(N) + [CollectOp(RootsTo(0, N))] + [CollectOp([RootAt(16)])]
  }

  lemma {:induction false} AllocsCount(n: nat)
    ensures |Allocs(n)| == n && forall i: nat :: i < n ==> Allocs(n)[i] == AllocOf(i)
    decreases n
  {
    hide AllocOf;
    if n > 0 {
      AllocsCount(n - 1);
    }
  }

  lemma OpsSplit()
    ensures var ops := FailingOps();
      && |ops| == N + 2 && ops[..N] == Allocs(N) && ops[N] == CollectOp(RootsTo(0, N))
      && ops[..N + 1] == Allocs(N) + [CollectOp(RootsTo(0, N))] && ops[N + 1] == CollectOp([RootAt(16)])
  {
    hide Allocs, RootsTo;
    AllocsCount(N);
  }

  lemma AllocReport(m: Memory, i: nat)
    requires |m| == 0x3008 && i < N
    ensures FailingOps()[i] == AllocOf(i) && ReportOf(LIST_CONFIG, Filled(m, 0), FailingOps(), i) == Pointer(Spot(i))
  {
    hide Apply, Spot, AllocOf, RootsTo, Filled, RunInvariant;
    var ops := FailingOps();
    OpsSplit();
    AllocsRun(m, i);
    AllocStep(m, i);
    AllocsPrefix(i, N);
    AllocsCount(N);
    assert ops[..i] == ops[..N][..i] && ops[i] == ops[..N][i];
  }

  lemma RunPowers()
    ensures PowersOfTwo(FailingOps())
  {
    hide RootsTo, IsPow2, Meta;
    AllocsCount(N);
    forall i: nat | i < N
      ensures IsPow2(Meta(i).alignment)
    {
      NoGap(i);
    }
  }

  lemma TwoCollectionReports(m: Memory)
    requires Rooted(m)
    ensures ReportOf(LIST_CONFIG, Filled(m, 0), FailingOps(), N) == Raised(BadOptionalAccess)
    ensures ReportOf(LIST_CONFIG, Filled(m, 0), FailingOps(), N + 1) == Raised(HeapCorruption)
  {
    hide RunInvariant, Apply, Rooted, Evacuate, Collect, LeftBehind, RootsTo, Filled, FailingOps, Allocs;
    var s := Filled(m, 0);
    assert |m| == 0x3008 by { RootedSize(m); }
    OpsSplit();
    AllocsRun(m, N);
    RunInvariantHeap(LIST_CONFIG, Filled(m, N));
    FirstCollectionFails(m);
    var s1 := Collect(LIST_CONFIG, OfOriginal, Filled(m, N), RootsTo(0, N));
    var a: nat :| LeftBehind(s1, a);
    SecondCollectionCorrupts(s1, a);
    RunOneMore(LIST_CONFIG, s, Allocs(N), CollectOp(RootsTo(0, N)));
    CollectReports(Filled(m, N), RootsTo(0, N));
    CollectReports(s1, [RootAt(16)]);
  }

  // From a new heap of one-page spaces, whose root slots hold the addresses to come: 32 allocations
  // succeed, the first collection runs out of room, and the second one reports heap corruption.
  lemma FailedCollectionCorrupts()
    ensures var s := Filled(RootMemory(N), 0); var ops := FailingOps();
      && RunInvariant(LIST_CONFIG, s) && s.table == map[] && |ops| == N + 2 && PowersOfTwo(ops)
      && (forall i: nat :: i < N ==> ReportOf(LIST_CONFIG, s, ops, i) == Pointer(Spot(i)))
      && ReportOf(LIST_CONFIG, s, ops, N) == Raised(BadOptionalAccess)
      && ReportOf(LIST_CONFIG, s, ops, N + 1) == Raised(HeapCorruption)
  {
    hide RunInvariant, ReportOf, RootMemory, Rooted, Spot, Filled, RootNames, FailingOps, PowersOfTwo;
    var m := RootMemory(N);
    RootMemoryRooted(N);
    AllRooted(m);
    AllocsRun(m, 0);
    OpsSplit();
    RunPowers();
    forall i: nat | i < N
      ensures ReportOf(LIST_CONFIG, Filled(m, 0), FailingOps(), i) == Pointer(Spot(i))
    {
      AllocReport(m, i);
    }
    TwoCollectionReports(m);
    EmptyAtFirst(m);
  }

  lemma AllRooted(m: Memory)
    requires |m| == 0x3008 && (forall j: nat :: j < N ==> RootNames(m, j))
    requires forall a :: 0x1000 <= a ==> At(m, a) == 0
    ensures Rooted(m)
  {
    hide RootNames;
  }

  lemma EmptyAtFirst(m: Memory)
    ensures Filled(m, 0).table == map[]
  {}

  lemma CollectReports(s: State, roots: seq<nat>)
    requires Evacuate(LIST_CONFIG, OfOriginal, s, roots).Faulted?
    ensures Apply(LIST_CONFIG, s, CollectOp(roots))
      == (Collect(LIST_CONFIG, OfOriginal, s, roots), Raised(Evacuate(LIST_CONFIG, OfOriginal, s, roots).fault))
  {
    hide Evacuate, Collect;
  }

  lemma {:induction false} AllocsPrefix(i: nat, n: nat)
    requires i <= n
    ensures |Allocs(n)| == n && |Allocs(i)| == i && Allocs(n)[..i] == Allocs(i)
    decreases n
  {
    hide AllocOf;
    AllocsCount(n);
    AllocsCount(i);
    if i < n {
      AllocsPrefix(i, n - 1);
    }
  }
}
