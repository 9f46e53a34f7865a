/**
 A variant of forward_ptr that the documentation of include/copy_collector.h describes
 and the source is not: the slots of the *copy* are pushed, so it is the copies that
 get forwarded, and originals stay as they were.
 */
module CopyScanning {
  import opened FatPtrs
  import AtomicCopy
  import opened Heaps
  import opened Ledgers
  import opened Evacuation

  ghost predicate NoPattern(m: Memory, k: nat, n: nat) {
    forall b: nat :: k <= b && b + 16 <= k + n ==> !IsSlot(m, b)
  }

  // Objects that hold pointers ask for pointer alignment, as C++ types with a FatPtr member do.
  ghost predicate PointersAligned(m: Memory, t: Table, roots: seq<nat>) {
    forall k :: k in t && Reachable(m, t, roots, k) ==> t[k].alignment % 8 == 0 || NoPattern(m, k, t[k].size)
  }

  // s is a place in the copy of k where scan_memory would look for a slot.
  ghost predicate CopyField(t0: Table, visited: map<nat, nat>, k: nat, s: nat) {
    k in visited && k in t0 && s % 8 == 0 && visited[k] <= s && s + 16 < visited[k] + t0[k].size
  }

  // The slot at s stands for the one that was at src: a root for itself, a copy's field for the original's.
  ghost predicate Plays(c: Config, m0: Memory, t0: Table, visited: map<nat, nat>, s: nat, src: nat) {
    || (RootPlace(c, |m0|, s) && src == s)
    || exists k :: CopyField(t0, visited, k, s) && src == s - visited[k] + k
  }

  ghost predicate ValueKept(m0: Memory, e: Evac, s: nat, src: nat) {
    && IsSlot(e.mem, s) == IsSlot(m0, src)
    && (IsSlot(m0, src) ==> SlotValue(e.visited, Target(m0, src), Target(e.mem, s)))
  }

  ghost predicate ValuesKept(c: Config, m0: Memory, t0: Table, e: Evac) {
    forall s, src :: Plays(c, m0, t0, e.visited, s, src) ==> ValueKept(m0, e, s, src)
  }

  ghost predicate OriginalsUntouched(m0: Memory, t0: Table, e: Evac) {
    forall k :: k in t0 ==> SameBytes(m0, k, e.mem, k, t0[k].size)
  }

  // a lies in the pointer word of a field of k's copy that was made to name a copy.
  ghost predicate InForwardedField(m0: Memory, t0: Table, visited: map<nat, nat>, k: nat, a: int) {
    exists s: nat :: CopyField(t0, visited, k, s) && s + 8 <= a < s + 16
      && IsSlot(m0, s - visited[k] + k) && Target(m0, s - visited[k] + k) in visited
  }

  ghost predicate CopyPayload(m0: Memory, t0: Table, e: Evac, k: nat)
    requires k in e.visited && k in t0
  {
    forall a {:trigger At(e.mem, a)} :: e.visited[k] <= a < e.visited[k] + t0[k].size ==>
      At(e.mem, a) == At(m0, a - e.visited[k] + k) || InForwardedField(m0, t0, e.visited, k, a)
  }

  ghost predicate CopiesPayload(m0: Memory, t0: Table, e: Evac) {
    forall k :: k in e.visited && k in t0 ==> CopyPayload(m0, t0, e, k)
  }

  ghost predicate VariantMemory(c: Config, m0: Memory, t0: Table, e: Evac) {
    && |e.mem| == |m0|
    && ValuesKept(c, m0, t0, e) && OriginalsUntouched(m0, t0, e) && CopiesPayload(m0, t0, e)
  }

  lemma CopyFieldPlace(c: Config, to: Space, m0: Memory, t0: Table, e: Evac, k: nat, s: nat)
    requires Fixed(c, to, m0, t0, e) && CopyField(t0, e.visited, k, s)
    ensures s % 8 == 0 && c.Base(to) <= s && s + 16 <= c.Base(to) + e.next <= c.Base(to) + c.heapSize && s + 16 <= |m0|
  {
    hide Fixed;
    CopyBounds(c, to, m0, t0, e, k);
    FixedConfig(c, to, m0, t0, e);
  }

  lemma FixedConfig(c: Config, to: Space, m0: Memory, t0: Table, e: Evac)
    requires Fixed(c, to, m0, t0, e)
    ensures ValidConfig(c, |m0|) && |e.mem| == |m0| && e.next <= c.heapSize
  {
    hide Accounted, FromSpaceTable;
  }

  // A slot in play lies in memory, aligned, and shares no byte with an original.
  lemma PlaysPlace(c: Config, to: Space, m0: Memory, t0: Table, e: Evac, s: nat, src: nat)
    requires Fixed(c, to, m0, t0, e) && Plays(c, m0, t0, e.visited, s, src)
    ensures s % 8 == 0 && s + 16 <= |m0|
    ensures forall k :: k in t0 ==> Apart(s, 16, k, t0[k].size)
  {
    hide Fixed;
    FixedConfig(c, to, m0, t0, e);
    if !(RootPlace(c, |m0|, s) && src == s) {
      var j :| CopyField(t0, e.visited, j, s) && src == s - e.visited[j] + j;
      CopyFieldPlace(c, to, m0, t0, e, j, s);
    }
    forall k | k in t0
      ensures Apart(s, 16, k, t0[k].size)
    {
      OriginalPlace(c, to, m0, t0, e, k);
    }
  }

  lemma PlaysNamesOriginal(c: Config, to: Space, m0: Memory, t0: Table, e: Evac, s: nat, src: nat)
    requires Fixed(c, to, m0, t0, e) && ValuesKept(c, m0, t0, e) && Plays(c, m0, t0, e.visited, s, src)
    requires IsSlot(e.mem, s) && Target(e.mem, s) in t0
    ensures IsSlot(m0, src) && Target(m0, src) == Target(e.mem, s)
  {
    hide IsSlot, Target, Fixed, Plays;
    assert ValueKept(m0, e, s, src);
    var t := Target(m0, src);
    if t in e.visited {
      CopyBounds(c, to, m0, t0, e, t);
    }
  }

  // ---- compare_exchange of a slot in play ----

  lemma VariantCas(c: Config, to: Space, m0: Memory, t0: Table, e: Evac, s: nat, src: nat, v: nat)
    requires Fixed(c, to, m0, t0, e) && VariantMemory(c, m0, t0, e) && Plays(c, m0, t0, e.visited, s, src)
    requires IsSlot(e.mem, s) && Target(e.mem, s) == v && v in e.visited
    ensures VariantMemory(c, m0, t0, e.(mem := Cas(e.mem, s, v, e.visited[v])))
  {
    hide IsSlot, Target, Cas, Fixed, Plays, ValuesKept, OriginalsUntouched, CopiesPayload;
    var m1 := Cas(e.mem, s, v, e.visited[v]);
    PlaysPlace(c, to, m0, t0, e, s, src);
    CopyBounds(c, to, m0, t0, e, v);
    CasEffect(e.mem, s, v, e.visited[v]);
    VariantCasValues(c, to, m0, t0, e, s, v);
    VariantCasOriginals(m0, t0, e, m1, s);
    VariantCasPayload(c, to, m0, t0, e, m1, s, src, v);
  }

  lemma VariantCasValues(c: Config, to: Space, m0: Memory, t0: Table, e: Evac, s: nat, v: nat)
    requires Fixed(c, to, m0, t0, e) && ValuesKept(c, m0, t0, e)
    requires s % 8 == 0 && s + 16 <= |e.mem|
    requires v in e.visited && v < ADDRESS_LIMIT && e.visited[v] < ADDRESS_LIMIT && v in t0
    requires IsSlot(e.mem, s) && Target(e.mem, s) == v
    ensures ValuesKept(c, m0, t0, e.(mem := Cas(e.mem, s, v, e.visited[v])))
  {
    hide IsSlot, Target, Cas, Fixed, Plays;
    var e1 := e.(mem := Cas(e.mem, s, v, e.visited[v]));
    CasEffect(e.mem, s, v, e.visited[v]);
    forall b: nat, src: nat | Plays(c, m0, t0, e.visited, b, src)
      ensures ValueKept(m0, e1, b, src)
    {
      PlaysPlace(c, to, m0, t0, e, b, src);
      assert ValueKept(m0, e, b, src);
      if b == s {
        PlaysNamesOriginal(c, to, m0, t0, e, s, src);
      } else {
        CasSeparation(e.mem, s, v, e.visited[v], b);
      }
    }
  }

  lemma VariantCasOriginals(m0: Memory, t0: Table, e: Evac, m1: Memory, s: nat)
    requires OriginalsUntouched(m0, t0, e) && SameExcept(e.mem, m1, s + 8, 8)
    requires forall k :: k in t0 ==> Apart(s, 16, k, t0[k].size)
    ensures OriginalsUntouched(m0, t0, e.(mem := m1))
  {
    hide SameExcept, SameBytes;
    forall k | k in t0
      ensures SameBytes(m0, k, m1, k, t0[k].size)
    {
      StillSame(m0, k, e.mem, k, t0[k].size, m1, s + 8, 8);
    }
  }

  // A slot in play that reaches into the copy of k is a field of that copy.
  lemma PlaysInCopy(c: Config, to: Space, m0: Memory, t0: Table, e: Evac, s: nat, src: nat, k: nat, a: int)
    requires Fixed(c, to, m0, t0, e) && Plays(c, m0, t0, e.visited, s, src) && k in e.visited && k in t0
    requires s + 8 <= a < s + 16 && e.visited[k] <= a < e.visited[k] + t0[k].size
    ensures CopyField(t0, e.visited, k, s) && src == s - e.visited[k] + k
  {
    hide Fixed;
    CopyBounds(c, to, m0, t0, e, k);
    FixedConfig(c, to, m0, t0, e);
    if RootPlace(c, |m0|, s) && src == s {
      assert false;
    } else {
      var j :| CopyField(t0, e.visited, j, s) && src == s - e.visited[j] + j;
      if j != k {
        CopyBounds(c, to, m0, t0, e, j);
        FixedApart(c, to, m0, t0, e, j, k);
      }
    }
  }

  lemma FixedApart(c: Config, to: Space, m0: Memory, t0: Table, e: Evac, j: nat, k: nat)
    requires Fixed(c, to, m0, t0, e) && j in e.visited && k in e.visited && j in t0 && k in t0 && j != k
    ensures Apart(e.visited[j], t0[j].size, e.visited[k], t0[k].size)
  {
    hide Accounted, FromSpaceTable, CopiesKept, NothingElse;
  }

  lemma VariantCasPayload(c: Config, to: Space, m0: Memory, t0: Table, e: Evac, m1: Memory, s: nat, src: nat, v: nat)
    requires Fixed(c, to, m0, t0, e) && ValuesKept(c, m0, t0, e) && CopiesPayload(m0, t0, e)
    requires SameExcept(e.mem, m1, s + 8, 8) && Plays(c, m0, t0, e.visited, s, src)
    requires IsSlot(e.mem, s) && Target(e.mem, s) == v && v in e.visited && v in t0
    ensures CopiesPayload(m0, t0, e.(mem := m1))
  {
    hide IsSlot, Target, Fixed, Plays, ValuesKept, CopyField;
    PlaysNamesOriginal(c, to, m0, t0, e, s, src);
    forall k | k in e.visited && k in t0
      ensures CopyPayload(m0, t0, e.(mem := m1), k)
    {
      assert CopyPayload(m0, t0, e, k);
      forall a | e.visited[k] <= a < e.visited[k] + t0[k].size
        ensures At(m1, a) == At(m0, a - e.visited[k] + k) || InForwardedField(m0, t0, e.visited, k, a)
      {
        if s + 8 <= a < s + 16 {
          PlaysInCopy(c, to, m0, t0, e, s, src, k, a);
        } else {
          assert At(m1, a) == At(e.mem, a);
        }
      }
    }
  }

  // ---- Copying one object ----

  lemma VariantCopy(c: Config, to: Space, m0: Memory, t0: Table, e: Evac, e1: Evac, k: nat, a: nat)
    requires Fixed(c, to, m0, t0, e) && VariantMemory(c, m0, t0, e) && Inside(c, to, t0, e1)
    requires k in t0 && Copied(c, to, e, e1, k, a, t0[k].size)
    ensures Fixed(c, to, m0, t0, e1) && VariantMemory(c, m0, t0, e1)
    ensures forall s: nat, src: nat :: Plays(c, m0, t0, e.visited, s, src) ==>
      IsSlot(e1.mem, s) == IsSlot(e.mem, s) && Target(e1.mem, s) == Target(e.mem, s)
  {
    hide IsSlot, Target, Ledger, FromSpaceTable, Moved, Plays, ValuesKept, OriginalsUntouched, CopiesPayload;
    hide AtomicCopy.Copy, SameBytes, SameExcept;
    var l := AtomicCopy.Written(k, t0[k].size);
    MovedLedger(c, to, t0, e, e1, k, a);
    CopyFits(c, to, m0, t0, e, e1, k, a);
    CopyBytes(c, to, m0, t0, e.mem, k, a);
    NewCopySame(m0, t0, e, e1, k, a);
    forall s: nat, src: nat | Plays(c, m0, t0, e.visited, s, src)
      ensures IsSlot(e1.mem, s) == IsSlot(e.mem, s) && Target(e1.mem, s) == Target(e.mem, s)
    {
      PlaysBelow(c, to, m0, t0, e, s, src, a, l);
      FrameSlot(e.mem, e1.mem, s, a, l);
    }
    VariantCopyValues(c, m0, t0, e, e1, k, a);
    VariantCopyOriginals(c, to, m0, t0, e, e1.mem, e1, k, a);
    VariantCopyPayload(c, to, m0, t0, e, e1, k, a);
  }

  lemma NewCopySame(m0: Memory, t0: Table, e: Evac, e1: Evac, k: nat, a: nat)
    requires OriginalsUntouched(m0, t0, e) && k in t0 && SameBytes(e.mem, k, e1.mem, a, t0[k].size)
    ensures SameBytes(m0, k, e1.mem, a, t0[k].size)
  {
    hide SameBytes;
    SameThrough(m0, e.mem, k, e1.mem, a, t0[k].size);
  }

  // Slots in play lie below the next free part of to-space or outside the heap.
  lemma PlaysBelow(c: Config, to: Space, m0: Memory, t0: Table, e: Evac, s: nat, src: nat, a: nat, n: nat)
    requires Fixed(c, to, m0, t0, e) && Plays(c, m0, t0, e.visited, s, src)
    requires c.Base(to) + e.next <= a && a + n <= c.Base(to) + c.heapSize
    ensures Apart(s, 16, a, n)
  {
    hide Fixed;
    if !(RootPlace(c, |m0|, s) && src == s) {
      var j :| CopyField(t0, e.visited, j, s) && src == s - e.visited[j] + j;
      CopyFieldPlace(c, to, m0, t0, e, j, s);
    }
  }

  lemma FrameSlot(m: Memory, m1: Memory, s: nat, a: nat, n: nat)
    requires SameExcept(m, m1, a, n) && Apart(s, 16, a, n)
    ensures IsSlot(m1, s) == IsSlot(m, s) && Target(m1, s) == Target(m, s)
  {
    hide IsSlot, Target;
    assert SameBytes(m, s, m1, s, 16);
    SlotFrame(m, s, m1, s);
  }

  // The bytes of a copy make the same slots as the bytes they were copied from.
  lemma ShiftedSlot(m0: Memory, k: nat, m1: Memory, a: nat, n: nat, s: nat)
    requires SameBytes(m0, k, m1, a, n) && a <= s && s + 16 <= a + n
    ensures IsSlot(m1, s) == IsSlot(m0, s - a + k) && Target(m1, s) == Target(m0, s - a + k)
  {
    hide IsSlot, Target;
    forall i | s - a + k <= i < s - a + k + 16
      ensures At(m0, i) == At(m1, i + (s - (s - a + k)))
    {
      assert At(m0, i) == At(m1, i + (a - k));
    }
    SlotFrame(m0, s - a + k, m1, s);
  }

  lemma VariantCopyValues(c: Config, m0: Memory, t0: Table, e: Evac, e1: Evac, k: nat, a: nat)
    requires ValuesKept(c, m0, t0, e) && k in t0 && k !in e.visited && e1.visited == e.visited[k := a]
    requires SameBytes(m0, k, e1.mem, a, t0[k].size)
    requires forall s: nat, src: nat :: Plays(c, m0, t0, e.visited, s, src) ==>
      IsSlot(e1.mem, s) == IsSlot(e.mem, s) && Target(e1.mem, s) == Target(e.mem, s)
    ensures ValuesKept(c, m0, t0, e1)
  {
    hide IsSlot, Target, RootPlace, SameBytes;
    forall s: nat, src: nat | Plays(c, m0, t0, e1.visited, s, src)
      ensures ValueKept(m0, e1, s, src)
    {
      if CopyField(t0, e1.visited, k, s) && src == s - a + k {
        ShiftedSlot(m0, k, e1.mem, a, t0[k].size, s);
      } else {
        assert Plays(c, m0, t0, e.visited, s, src) by { PlaysBefore(c, m0, t0, e.visited, e1.visited, k, s, src); }
        assert ValueKept(m0, e, s, src);
      }
    }
  }

  lemma PlaysBefore(
      c: Config, m0: Memory, t0: Table, visited: map<nat, nat>, visited': map<nat, nat>, k: nat, s: nat, src: nat)
    requires k in visited' && visited' == visited[k := visited'[k]]
    requires Plays(c, m0, t0, visited', s, src) && !(CopyField(t0, visited', k, s) && src == s - visited'[k] + k)
    ensures Plays(c, m0, t0, visited, s, src)
  {
    hide RootPlace;
    if !(RootPlace(c, |m0|, s) && src == s) {
      var j :| CopyField(t0, visited', j, s) && src == s - visited'[j] + j;
      assert CopyField(t0, visited, j, s);
    }
  }

  lemma VariantCopyOriginals(c: Config, to: Space, m0: Memory, t0: Table, e: Evac, m1: Memory, e1: Evac, k: nat, a: nat)
    requires Fixed(c, to, m0, t0, e) && OriginalsUntouched(m0, t0, e) && k in t0 && m1 == e1.mem
    requires SameExcept(e.mem, m1, a, AtomicCopy.Written(k, t0[k].size))
    requires c.Base(to) <= a && a + AtomicCopy.Written(k, t0[k].size) <= c.Base(to) + c.heapSize
    ensures OriginalsUntouched(m0, t0, e1)
  {
    hide Fixed, SameExcept, SameBytes;
    forall j | j in t0
      ensures SameBytes(m0, j, m1, j, t0[j].size)
    {
      OriginalPlace(c, to, m0, t0, e, j);
      AcrossSpaces(c, to, j, t0[j].size, a, AtomicCopy.Written(k, t0[k].size));
      StillSame(m0, j, e.mem, j, t0[j].size, m1, a, AtomicCopy.Written(k, t0[k].size));
    }
  }

  lemma VariantCopyPayload(c: Config, to: Space, m0: Memory, t0: Table, e: Evac, e1: Evac, k: nat, a: nat)
    requires Fixed(c, to, m0, t0, e) && CopiesPayload(m0, t0, e) && k in t0
    requires SameExcept(e.mem, e1.mem, a, AtomicCopy.Written(k, t0[k].size)) && SameBytes(m0, k, e1.mem, a, t0[k].size)
    requires c.Base(to) + e.next <= a && k !in e.visited && e1.visited == e.visited[k := a]
    ensures CopiesPayload(m0, t0, e1)
  {
    hide IsSlot, Target, Fixed, CopyPayload;
    forall j | j in e1.visited && j in t0
      ensures CopyPayload(m0, t0, e1, j)
    {
      if j == k {
        NewPayload(m0, t0, e1, k);
      } else {
        CopyBounds(c, to, m0, t0, e, j);
        OldPayload(m0, t0, e, e1, j, k, a);
      }
    }
  }

  lemma NewPayload(m0: Memory, t0: Table, e1: Evac, k: nat)
    requires k in e1.visited && k in t0 && SameBytes(m0, k, e1.mem, e1.visited[k], t0[k].size)
    ensures CopyPayload(m0, t0, e1, k)
  {
    hide InForwardedField;
    forall x | e1.visited[k] <= x < e1.visited[k] + t0[k].size
      ensures At(e1.mem, x) == At(m0, x - e1.visited[k] + k)
    {
      assert At(m0, x - e1.visited[k] + k) == At(e1.mem, x - e1.visited[k] + k + (e1.visited[k] - k));
    }
  }

  lemma OldPayload(m0: Memory, t0: Table, e: Evac, e1: Evac, j: nat, k: nat, a: nat)
    requires j in e.visited && j in t0 && CopyPayload(m0, t0, e, j) && k in t0 && k !in e.visited
    requires e1.visited == e.visited[k := a]
    requires SameExcept(e.mem, e1.mem, a, AtomicCopy.Written(k, t0[k].size)) && e.visited[j] + t0[j].size <= a
    ensures CopyPayload(m0, t0, e1, j)
  {
    hide IsSlot, Target;
    forall x | e.visited[j] <= x < e.visited[j] + t0[j].size
      ensures At(e1.mem, x) == At(m0, x - e.visited[j] + j) || InForwardedField(m0, t0, e1.visited, j, x)
    {
      assert At(e1.mem, x) == At(e.mem, x);
      if At(e.mem, x) != At(m0, x - e.visited[j] + j) {
        var s: nat :| CopyField(t0, e.visited, j, s) && s + 8 <= x < s + 16
          && IsSlot(m0, s - e.visited[j] + j) && Target(m0, s - e.visited[j] + j) in e.visited;
        assert CopyField(t0, e1.visited, j, s);
      }
    }
  }
}
