/**
 What forward_ptr does to memory and to the object graph in one collection, as the
 source does it: the slots of the *original* are pushed, so originals get forwarded
 and copies keep the pointers their originals had.
 `m0` and `t0` are the memory and the table when the collection starts.
 */
module Evacuation {
  import opened Bits
  import opened FatPtrs
  import AtomicCopy
  import opened Heaps
  import opened Ledgers

  // ---- The object graph ----

  // s is a slot that scan_memory reports inside object k.
  ghost predicate FieldSlot(m: Memory, t: Table, k: nat, s: nat) {
    k in t && s % 8 == 0 && k <= s && s + 16 < k + t[k].size && IsSlot(m, s)
  }

  // Following field offsets from a root slot, by plain pointer reads.
  function Walk(m: Memory, root: nat, offsets: seq<nat>): nat {
    if offsets == [] then Target(m, root)
    else Target(m, Walk(m, root, offsets[..|offsets| - 1]) + offsets[|offsets| - 1])
  }

  // The walk starts at a recognised root and goes through recognised slots of managed objects only.
  ghost predicate ValidWalk(m: Memory, t: Table, roots: seq<nat>, root: nat, offsets: seq<nat>) {
    && root in roots && IsSlot(m, root)
    && Walk(m, root, offsets) in t
    && (offsets != [] ==>
         var front := offsets[..|offsets| - 1];
         && ValidWalk(m, t, roots, root, front)
         && FieldSlot(m, t, Walk(m, root, front), Walk(m, root, front) + offsets[|offsets| - 1]))
  }

  ghost predicate Reachable(m: Memory, t: Table, roots: seq<nat>, k: nat) {
    exists root, offsets :: ValidWalk(m, t, roots, root, offsets) && Walk(m, root, offsets) == k
  }

  ghost function Live(m: Memory, t: Table, roots: seq<nat>): set<nat> {
    set k | k in t && Reachable(m, t, roots, k)
  }

  // The padded bytes of the reachable objects, and 7 more, fit into a space.
  ghost predicate LiveSlack(c: Config, m: Memory, t: Table, roots: seq<nat>) {
    Sum(t, Live(m, t, roots), true) + 7 <= c.heapSize
  }

  lemma RootReaches(m: Memory, t: Table, roots: seq<nat>, r: nat)
    requires r in roots && IsSlot(m, r) && Target(m, r) in t
    ensures Reachable(m, t, roots, Target(m, r))
  {
    assert ValidWalk(m, t, roots, r, []) && Walk(m, r, []) == Target(m, r);
  }

  lemma FieldReaches(m: Memory, t: Table, roots: seq<nat>, k: nat, s: nat)
    requires Reachable(m, t, roots, k) && FieldSlot(m, t, k, s) && Target(m, s) in t
    ensures Reachable(m, t, roots, Target(m, s))
  {
    hide FieldSlot, IsSlot, Target;
    var root, offsets :| ValidWalk(m, t, roots, root, offsets) && Walk(m, root, offsets) == k;
    assert s >= k by { FieldAbove(m, t, k, s); }
    WalkFurther(m, t, roots, root, offsets, s - k);
  }

  lemma FieldAbove(m: Memory, t: Table, k: nat, s: nat)
    requires FieldSlot(m, t, k, s)
    ensures k <= s && IsSlot(m, s)
  {}

  lemma FieldFits(m: Memory, t: Table, k: nat, s: nat)
    requires FieldSlot(m, t, k, s)
    ensures k in t && k <= s && s - k + 16 <= t[k].size && IsSlot(m, s)
  {}

  lemma WalkFurther(m: Memory, t: Table, roots: seq<nat>, root: nat, offsets: seq<nat>, o: nat)
    requires ValidWalk(m, t, roots, root, offsets)
    requires var s := Walk(m, root, offsets) + o; FieldSlot(m, t, Walk(m, root, offsets), s) && Target(m, s) in t
    ensures ValidWalk(m, t, roots, root, offsets + [o])
    ensures Walk(m, root, offsets + [o]) == Target(m, Walk(m, root, offsets) + o)
  {
    hide FieldSlot, IsSlot, Target;
    var longer := offsets + [o];
    assert longer[..|longer| - 1] == offsets;
  }

  // ---- Where slots may lie ----

  ghost predicate Off(c: Config, sp: Space, b: nat) {
    b + 16 <= c.Base(sp) || c.Base(sp) + c.heapSize <= b
  }

  // Root slots are FatPtr objects on stacks and in data segments: aligned and outside both spaces.
  ghost predicate RootPlace(c: Config, memorySize: nat, r: nat) {
    r % 8 == 0 && r + 16 <= memorySize && Off(c, Zero, r) && Off(c, One, r)
  }

  ghost predicate RootPlaces(c: Config, memorySize: nat, roots: seq<nat>) {
    forall r :: r in roots ==> RootPlace(c, memorySize, r)
  }

  // ---- Memory ----

  // The slot that held t now holds t or t's copy.
  predicate SlotValue(visited: map<nat, nat>, t: nat, v: nat) {
    v == t || (t in visited && v == visited[t])
  }

  ghost predicate SlotsKept(c: Config, to: Space, m0: Memory, e: Evac) {
    forall b {:trigger IsSlot(e.mem, b)} {:trigger Target(e.mem, b)} {:trigger IsSlot(m0, b)} ::
      b >= 0 && b % 8 == 0 && Off(c, to, b) ==>
      && IsSlot(e.mem, b) == IsSlot(m0, b)
      && (IsSlot(m0, b) ==> SlotValue(e.visited, Target(m0, b), Target(e.mem, b)))
  }

  // Each copy holds the bytes its original had when the collection started.
  ghost predicate CopiesFaithful(m0: Memory, t0: Table, e: Evac) {
    forall k :: k in e.visited && k in t0 ==> SameBytes(m0, k, e.mem, e.visited[k], t0[k].size)
  }

  ghost predicate UnvisitedUntouched(m0: Memory, t0: Table, e: Evac) {
    forall k :: k in t0 && k !in e.visited ==> SameBytes(m0, k, e.mem, k, t0[k].size)
  }

  // s is a root or a field of an object already copied.
  ghost predicate Owned(c: Config, m0: Memory, t0: Table, roots: seq<nat>, visited: map<nat, nat>, s: nat) {
    (s in roots && RootPlace(c, |m0|, s)) || exists k :: k in visited && FieldSlot(m0, t0, k, s)
  }

  // a lies in the pointer word of such a slot, and what the slot named has been copied.
  ghost predicate InForwardedSlot(
    c: Config, m0: Memory, t0: Table, roots: seq<nat>, visited: map<nat, nat>, a: int)
  {
    exists b: nat :: b + 8 <= a < b + 16 && ForwardedSlot(c, m0, t0, roots, visited, b)
  }

  ghost predicate ForwardedSlot(
    c: Config, m0: Memory, t0: Table, roots: seq<nat>, visited: map<nat, nat>, b: nat)
  {
    Owned(c, m0, t0, roots, visited, b) && IsSlot(m0, b) && Target(m0, b) in visited
  }

  // Outside to-space nothing else has changed.
  ghost predicate OnlyForwarded(c: Config, to: Space, m0: Memory, t0: Table, roots: seq<nat>, e: Evac) {
    forall a {:trigger At(e.mem, a)} :: !(c.Base(to) <= a < c.Base(to) + c.heapSize) ==>
      At(e.mem, a) == At(m0, a) || InForwardedSlot(c, m0, t0, roots, e.visited, a)
  }

  ghost predicate MemoryKept(c: Config, to: Space, m0: Memory, t0: Table, e: Evac) {
    && |e.mem| == |m0|
    && SlotsKept(c, to, m0, e) && CopiesFaithful(m0, t0, e) && UnvisitedUntouched(m0, t0, e)
  }

  // No copy has written bytes behind the end of to-space.
  ghost predicate Inside(c: Config, to: Space, t0: Table, e: Evac) {
    forall k :: k in e.visited && k in t0 ==> StaysInside(c, to, t0, e.visited[k], k)
  }

  ghost predicate StaysInside(c: Config, to: Space, t0: Table, a: nat, k: nat)
    requires k in t0
  {
    a + AtomicCopy.Written(k, t0[k].size) <= c.Base(to) + c.heapSize
  }

  lemma InsideBefore(c: Config, to: Space, t0: Table, e: Evac, e1: Evac)
    requires Inside(c, to, t0, e1) && Extends(e, e1)
    ensures Inside(c, to, t0, e)
  {
    hide StaysInside;
  }

  lemma InsideOneMore(c: Config, to: Space, t0: Table, e: Evac, e1: Evac, k: nat, a: nat)
    requires Inside(c, to, t0, e) && k in t0 && k !in e.visited && e1.visited == e.visited[k := a]
    ensures Inside(c, to, t0, e1) <==> StaysInside(c, to, t0, a, k)
  {
    hide StaysInside;
    assert e1.visited[k] == a;
  }

  ghost predicate Fixed(c: Config, to: Space, m0: Memory, t0: Table, e: Evac) {
    && ValidConfig(c, |m0|) && FromSpaceTable(c, to, t0) && Ledger(c, to, t0, e) && |e.mem| == |m0|
  }

  lemma OwnedPlace(c: Config, to: Space, m0: Memory, t0: Table, roots: seq<nat>, e: Evac, s: nat)
    requires Fixed(c, to, m0, t0, e) && Owned(c, m0, t0, roots, e.visited, s)
    ensures s % 8 == 0 && s + 16 <= |m0| && Off(c, to, s)
  {
    hide IsPow2, AlignedTo, Ledger;
  }

  // No byte of an owned slot belongs to an object not yet copied.
  lemma OwnedApart(c: Config, to: Space, m0: Memory, t0: Table, roots: seq<nat>, e: Evac, s: nat, k: nat)
    requires Fixed(c, to, m0, t0, e) && Owned(c, m0, t0, roots, e.visited, s)
    requires k in t0 && k !in e.visited
    ensures Apart(s, 16, k, t0[k].size)
  {
    hide IsPow2, AlignedTo, Ledger;
  }

  lemma CopyBounds(c: Config, to: Space, m0: Memory, t0: Table, e: Evac, k: nat)
    requires Fixed(c, to, m0, t0, e) && k in e.visited
    ensures k in t0 && k < ADDRESS_LIMIT && e.visited[k] < ADDRESS_LIMIT && e.visited[k] !in t0
    ensures c.Base(to) <= e.visited[k] && e.visited[k] + t0[k].size <= c.Base(to) + e.next <= c.Base(to) + c.heapSize
  {
    hide IsPow2, AlignedTo, CopiesApart, NothingElse, Accounted;
    assert CopyPlaced(c, to, t0[k], e.visited[k], e.next);
  }

  lemma ObjectNotEmpty(c: Config, to: Space, m0: Memory, t0: Table, e: Evac, k: nat)
    requires Fixed(c, to, m0, t0, e) && k in t0
    ensures t0[k].size > 0
  {
    hide Ledger, IsPow2, AlignedTo, Apart;
  }

  // ---- compare_exchange of a forwarded slot ----

  // An unforwarded slot that names an original named it from the start.
  lemma NamesOriginal(c: Config, to: Space, m0: Memory, t0: Table, e: Evac, s: nat)
    requires Fixed(c, to, m0, t0, e) && SlotsKept(c, to, m0, e)
    requires s % 8 == 0 && Off(c, to, s) && IsSlot(e.mem, s) && Target(e.mem, s) in t0
    ensures IsSlot(m0, s) && Target(m0, s) == Target(e.mem, s)
  {
    hide IsSlot, Target, Fixed;
    var t := Target(m0, s);
    if t in e.visited {
      CopyBounds(c, to, m0, t0, e, t);
    }
  }

  // The slot holds an object that has been copied; it is made to name the copy.
  lemma CasKeeps(c: Config, to: Space, m0: Memory, t0: Table, roots: seq<nat>, e: Evac, s: nat, v: nat)
    requires Fixed(c, to, m0, t0, e) && MemoryKept(c, to, m0, t0, e) && Owned(c, m0, t0, roots, e.visited, s)
    requires IsSlot(e.mem, s) && Target(e.mem, s) == v && v in e.visited
    ensures var e1 := e.(mem := Cas(e.mem, s, v, e.visited[v]));
      MemoryKept(c, to, m0, t0, e1)
      && (OnlyForwarded(c, to, m0, t0, roots, e) ==> OnlyForwarded(c, to, m0, t0, roots, e1))
  {
    hide IsSlot, Target, Cas, Fixed, Owned, SlotsKept, CopiesFaithful, UnvisitedUntouched, OnlyForwarded, FieldSlot;
    var m1 := Cas(e.mem, s, v, e.visited[v]);
    OwnedPlace(c, to, m0, t0, roots, e, s);
    CopyBounds(c, to, m0, t0, e, v);
    NamesOriginal(c, to, m0, t0, e, s);
    CasEffect(e.mem, s, v, e.visited[v]);
    CasSlots(c, to, m0, t0, e, s, v);
    CasCopies(c, to, m0, t0, e, m1, s);
    CasUnvisited(c, to, m0, t0, roots, e, m1, s);
    if OnlyForwarded(c, to, m0, t0, roots, e) {
      CasOutside(c, to, m0, t0, roots, e, m1, s);
    }
  }

  lemma CasSlots(c: Config, to: Space, m0: Memory, t0: Table, e: Evac, s: nat, v: nat)
    requires SlotsKept(c, to, m0, e)
    requires v in e.visited && v < ADDRESS_LIMIT && e.visited[v] < ADDRESS_LIMIT
    requires s % 8 == 0 && s + 16 <= |e.mem| && Off(c, to, s)
    requires IsSlot(e.mem, s) && IsSlot(m0, s) && Target(e.mem, s) == v && Target(m0, s) == v
    ensures SlotsKept(c, to, m0, e.(mem := Cas(e.mem, s, v, e.visited[v])))
  {
    hide IsSlot, Target, Cas;
    var m1 := Cas(e.mem, s, v, e.visited[v]);
    CasEffect(e.mem, s, v, e.visited[v]);
    forall b: nat | b % 8 == 0 && Off(c, to, b) && b != s
      ensures IsSlot(m1, b) == IsSlot(m0, b)
      ensures IsSlot(m0, b) ==> SlotValue(e.visited, Target(m0, b), Target(m1, b))
    {
      CasSeparation(e.mem, s, v, e.visited[v], b);
    }
  }

  lemma CasCopies(c: Config, to: Space, m0: Memory, t0: Table, e: Evac, m1: Memory, s: nat)
    requires Fixed(c, to, m0, t0, e) && CopiesFaithful(m0, t0, e)
    requires Off(c, to, s) && SameExcept(e.mem, m1, s + 8, 8)
    ensures CopiesFaithful(m0, t0, e.(mem := m1))
  {
    hide Fixed, Off, SameExcept;
    forall k | k in e.visited && k in t0
      ensures SameBytes(m0, k, m1, e.visited[k], t0[k].size)
    {
      CopyBounds(c, to, m0, t0, e, k);
      OffApart(c, to, s, e.visited[k], t0[k].size);
      StillSame(m0, k, e.mem, e.visited[k], t0[k].size, m1, s + 8, 8);
    }
  }

  lemma OffApart(c: Config, to: Space, s: nat, a: nat, n: nat)
    requires Off(c, to, s) && c.Base(to) <= a && a + n <= c.Base(to) + c.heapSize
    ensures Apart(s + 8, 8, a, n)
  {}

  // Bytes away from the ones written stay the bytes they were.
  lemma StillSame(m0: Memory, k: nat, m: Memory, a: nat, n: nat, m1: Memory, w: nat, l: nat)
    requires SameBytes(m0, k, m, a, n) && SameExcept(m, m1, w, l) && Apart(w, l, a, n)
    ensures SameBytes(m0, k, m1, a, n)
  {
    forall i | k <= i < k + n
      ensures At(m0, i) == At(m1, i + (a - k))
    {
      assert At(m0, i) == At(m, i + (a - k));
      assert At(m1, i + (a - k)) == At(m, i + (a - k));
    }
  }

  lemma CasUnvisited(c: Config, to: Space, m0: Memory, t0: Table, roots: seq<nat>, e: Evac, m1: Memory, s: nat)
    requires Fixed(c, to, m0, t0, e) && UnvisitedUntouched(m0, t0, e)
    requires Owned(c, m0, t0, roots, e.visited, s) && SameExcept(e.mem, m1, s + 8, 8)
    ensures UnvisitedUntouched(m0, t0, e.(mem := m1))
  {
    hide Fixed, Owned, SameExcept, SameBytes;
    forall k | k in t0 && k !in e.visited
      ensures SameBytes(m0, k, m1, k, t0[k].size)
    {
      OwnedApart(c, to, m0, t0, roots, e, s, k);
      StillSame(m0, k, e.mem, k, t0[k].size, m1, s + 8, 8);
    }
  }

  lemma CasOutside(
      c: Config, to: Space, m0: Memory, t0: Table, roots: seq<nat>, e: Evac, m1: Memory, s: nat)
    requires OnlyForwarded(c, to, m0, t0, roots, e) && SameExcept(e.mem, m1, s + 8, 8)
    requires Owned(c, m0, t0, roots, e.visited, s) && IsSlot(m0, s) && Target(m0, s) in e.visited
    ensures OnlyForwarded(c, to, m0, t0, roots, e.(mem := m1))
  {
    hide IsSlot, Target, Owned;
    assert ForwardedSlot(c, m0, t0, roots, e.visited, s);
    forall a | !(c.Base(to) <= a < c.Base(to) + c.heapSize)
      ensures At(m1, a) == At(m0, a) || InForwardedSlot(c, m0, t0, roots, e.visited, a)
    {
      assert s + 8 <= a < s + 16 || At(m1, a) == At(e.mem, a);
    }
  }

  // ---- Copying one object ----

  // e1 is e with object k copied to a and nothing else done yet.
  ghost predicate Copied(c: Config, to: Space, e: Evac, e1: Evac, k: nat, a: nat, n: nat) {
    && Moved(c, to, e, e1, k, a) && e1.next == a + n - c.Base(to)
    && e1.mem == AtomicCopy.Copy(e.mem, a, k, n)
  }

  lemma CopyKeeps(
      c: Config, to: Space, m0: Memory, t0: Table, roots: seq<nat>, e: Evac, e1: Evac, k: nat, a: nat)
    requires Fixed(c, to, m0, t0, e) && MemoryKept(c, to, m0, t0, e) && Inside(c, to, t0, e1)
    requires k in t0 && Copied(c, to, e, e1, k, a, t0[k].size)
    ensures Fixed(c, to, m0, t0, e1) && MemoryKept(c, to, m0, t0, e1)
    ensures OnlyForwarded(c, to, m0, t0, roots, e) ==> OnlyForwarded(c, to, m0, t0, roots, e1)
    ensures forall b: nat :: Off(c, to, b) ==>
      IsSlot(e1.mem, b) == IsSlot(e.mem, b) && Target(e1.mem, b) == Target(e.mem, b)
  {
    hide IsSlot, Target, Ledger, FromSpaceTable, Moved, Inside, SlotsKept, CopiesFaithful, UnvisitedUntouched;
    hide OnlyForwarded, AtomicCopy.Copy;
    var l := AtomicCopy.Written(k, t0[k].size);
    MovedLedger(c, to, t0, e, e1, k, a);
    CopyFits(c, to, m0, t0, e, e1, k, a);
    CopyBytes(c, to, m0, t0, e.mem, k, a);
    CopySlots(c, to, m0, e, e1, k, a, l);
    CopyCopies(c, to, m0, t0, e, e1, k, a);
    CopyUnvisited(c, to, m0, t0, e, e1, k, a);
    if OnlyForwarded(c, to, m0, t0, roots, e) {
      CopyOutside(c, to, m0, t0, roots, e, e1, k, a, l);
    }
  }

  lemma CopyFits(c: Config, to: Space, m0: Memory, t0: Table, e: Evac, e1: Evac, k: nat, a: nat)
    requires Fixed(c, to, m0, t0, e) && Inside(c, to, t0, e1)
    requires k in t0 && Copied(c, to, e, e1, k, a, t0[k].size)
    ensures c.Base(to) + e.next <= a && a + AtomicCopy.Written(k, t0[k].size) <= c.Base(to) + c.heapSize
    ensures k !in e.visited && e1.visited == e.visited[k := a]
  {
    hide Ledger, FromSpaceTable, CopyPlaced, AtomicCopy.Written;
    assert k in e1.visited && StaysInside(c, to, t0, e1.visited[k], k);
  }

  // The copy's source block and its destination block lie in different spaces.
  lemma CopyBytes(c: Config, to: Space, m0: Memory, t0: Table, m: Memory, k: nat, a: nat)
    requires ValidConfig(c, |m0|) && FromSpaceTable(c, to, t0) && |m| == |m0| && k in t0
    requires c.Base(to) <= a && a + AtomicCopy.Written(k, t0[k].size) <= c.Base(to) + c.heapSize
    ensures SameExcept(m, AtomicCopy.Copy(m, a, k, t0[k].size), a, AtomicCopy.Written(k, t0[k].size))
    ensures SameBytes(m, k, AtomicCopy.Copy(m, a, k, t0[k].size), a, t0[k].size)
  {
    hide IsPow2, AlignedTo, AtomicCopy.Copy, SameExcept, SameBytes, AlignUp8;
    SpaceEnd(c, to.Other(), k + t0[k].size);
    AtomicCopy.CopyEffect(m, a, k, t0[k].size);
  }

  lemma PageMultiple(a: nat, b: nat)
    requires a % 256 == 0 && b % 256 == 0
    ensures (a + b) % 8 == 0
  {}

  // A space ends on an 8-byte boundary.
  lemma SpaceEnd(c: Config, sp: Space, end: nat)
    requires c.base0 % 256 == 0 && c.base1 % 256 == 0 && c.heapSize % 256 == 0
    requires end <= c.Base(sp) + c.heapSize
    ensures AlignUp8(end) <= c.Base(sp) + c.heapSize
  {
    hide AlignUp8;
    PageMultiple(c.Base(sp), c.heapSize);
    AlignUpLeast(end, c.Base(sp) + c.heapSize);
  }

  lemma CopySlots(c: Config, to: Space, m0: Memory, e: Evac, e1: Evac, k: nat, a: nat, n: nat)
    requires SlotsKept(c, to, m0, e) && SameExcept(e.mem, e1.mem, a, n)
    requires c.Base(to) <= a && a + n <= c.Base(to) + c.heapSize
    requires k !in e.visited && e1.visited == e.visited[k := a]
    ensures SlotsKept(c, to, m0, e1)
    ensures forall b: nat :: Off(c, to, b) ==>
      IsSlot(e1.mem, b) == IsSlot(e.mem, b) && Target(e1.mem, b) == Target(e.mem, b)
  {
    hide IsSlot, Target;
    forall b: nat | Off(c, to, b)
      ensures IsSlot(e1.mem, b) == IsSlot(e.mem, b) && Target(e1.mem, b) == Target(e.mem, b)
    {
      assert SameBytes(e.mem, b, e1.mem, b, 16);
      SlotFrame(e.mem, b, e1.mem, b);
    }
  }

  lemma CopyCopies(c: Config, to: Space, m0: Memory, t0: Table, e: Evac, e1: Evac, k: nat, a: nat)
    requires Fixed(c, to, m0, t0, e) && CopiesFaithful(m0, t0, e) && UnvisitedUntouched(m0, t0, e) && k in t0
    requires SameExcept(e.mem, e1.mem, a, AtomicCopy.Written(k, t0[k].size))
    requires SameBytes(e.mem, k, e1.mem, a, t0[k].size)
    requires c.Base(to) + e.next <= a && k !in e.visited && e1.visited == e.visited[k := a]
    ensures CopiesFaithful(m0, t0, e1)
  {
    hide Fixed, SameExcept, SameBytes;
    forall j | j in e.visited && j in t0
      ensures SameBytes(m0, j, e1.mem, e.visited[j], t0[j].size)
    {
      CopyBounds(c, to, m0, t0, e, j);
      StillSame(m0, j, e.mem, e.visited[j], t0[j].size, e1.mem, a, AtomicCopy.Written(k, t0[k].size));
    }
    SameThrough(m0, e.mem, k, e1.mem, a, t0[k].size);
  }

  lemma SameThrough(m0: Memory, m: Memory, k: nat, m1: Memory, a: nat, n: nat)
    requires SameBytes(m0, k, m, k, n) && SameBytes(m, k, m1, a, n)
    ensures SameBytes(m0, k, m1, a, n)
  {
    forall i | k <= i < k + n
      ensures At(m0, i) == At(m1, i + (a - k))
    {
      assert At(m0, i) == At(m, i + (k - k));
    }
  }

  lemma CopyUnvisited(c: Config, to: Space, m0: Memory, t0: Table, e: Evac, e1: Evac, k: nat, a: nat)
    requires Fixed(c, to, m0, t0, e) && UnvisitedUntouched(m0, t0, e) && k in t0
    requires SameExcept(e.mem, e1.mem, a, AtomicCopy.Written(k, t0[k].size))
    requires c.Base(to) <= a && a + AtomicCopy.Written(k, t0[k].size) <= c.Base(to) + c.heapSize
    requires e1.visited == e.visited[k := a]
    ensures UnvisitedUntouched(m0, t0, e1)
  {
    hide Fixed, SameExcept, SameBytes;
    forall j | j in t0 && j !in e1.visited
      ensures SameBytes(m0, j, e1.mem, j, t0[j].size)
    {
      OriginalPlace(c, to, m0, t0, e, j);
      AcrossSpaces(c, to, j, t0[j].size, a, AtomicCopy.Written(k, t0[k].size));
      StillSame(m0, j, e.mem, j, t0[j].size, e1.mem, a, AtomicCopy.Written(k, t0[k].size));
    }
  }

  lemma OriginalPlace(c: Config, to: Space, m0: Memory, t0: Table, e: Evac, j: nat)
    requires Fixed(c, to, m0, t0, e) && j in t0
    ensures SpacesApart(c)
    ensures c.Base(to.Other()) <= j && j + t0[j].size <= c.Base(to.Other()) + c.heapSize
  {
    hide Ledger, IsPow2, AlignedTo;
  }

  lemma CopyOutside(
      c: Config, to: Space, m0: Memory, t0: Table, roots: seq<nat>, e: Evac, e1: Evac, k: nat, a: nat, n: nat)
    requires OnlyForwarded(c, to, m0, t0, roots, e) && SameExcept(e.mem, e1.mem, a, n)
    requires c.Base(to) <= a && a + n <= c.Base(to) + c.heapSize
    requires e1.visited == e.visited[k := a]
    ensures OnlyForwarded(c, to, m0, t0, roots, e1)
  {
    hide IsSlot, Target, Owned;
    forall x | !(c.Base(to) <= x < c.Base(to) + c.heapSize)
      ensures At(e1.mem, x) == At(m0, x) || InForwardedSlot(c, m0, t0, roots, e1.visited, x)
    {
      assert At(e1.mem, x) == At(e.mem, x);
      if At(e.mem, x) != At(m0, x) {
        var b: nat :| b + 8 <= x < b + 16 && ForwardedSlot(c, m0, t0, roots, e.visited, b);
        OwnedStays(c, m0, t0, roots, e.visited, e1.visited, b);
        assert ForwardedSlot(c, m0, t0, roots, e1.visited, b);
      }
    }
  }

  lemma OwnedStays(
      c: Config, m0: Memory, t0: Table, roots: seq<nat>, visited: map<nat, nat>, visited': map<nat, nat>, s: nat)
    requires Owned(c, m0, t0, roots, visited, s) && visited.Keys <= visited'.Keys
    ensures Owned(c, m0, t0, roots, visited', s)
  {
    hide RootPlace, FieldSlot;
  }
}
