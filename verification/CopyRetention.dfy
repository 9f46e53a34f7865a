/**
 The copy-scanning variant: exact retention, and no slot of a copy left naming an original.
 */
module CopyRetention {
  import opened Bits
  import opened FatPtrs
  import AtomicCopy
  import opened Heaps
  import opened Ledgers
  import opened Evacuation
  import opened Retention
  import opened CopyScanning

  ghost predicate SettledAs(m0: Memory, t0: Table, e: Evac, s: nat, src: nat) {
    IsSlot(m0, src) && Target(m0, src) in t0 ==>
      Target(m0, src) in e.visited && Target(e.mem, s) == e.visited[Target(m0, src)]
  }

  // The original's address that corresponds to s in the copy of k.
  function Source(visited: map<nat, nat>, k: nat, s: nat): nat {
    if k in visited && s >= visited[k] then s - visited[k] + k else s
  }

  ghost predicate InPlay(c: Config, m0: Memory, t0: Table, roots: seq<nat>, visited: map<nat, nat>, s: nat) {
    exists src :: Plays(c, m0, t0, visited, s, src) && Leads(m0, t0, roots, src)
  }

  ghost predicate CopyStackFine(c: Config, m0: Memory, t0: Table, roots: seq<nat>, e: Evac, stack: seq<nat>) {
    forall s :: s in stack ==> InPlay(c, m0, t0, roots, e.visited, s)
  }

  ghost predicate CopyComplete(m0: Memory, t0: Table, taken: seq<nat>, e: Evac, stack: seq<nat>) {
    && (forall r :: r in taken ==> r in stack || SettledAs(m0, t0, e, r, r))
    && (forall k, s :: CopyField(t0, e.visited, k, s) ==>
         s in stack || SettledAs(m0, t0, e, s, Source(e.visited, k, s)))
  }

  ghost predicate CopyGraph(
      c: Config, m0: Memory, t0: Table, roots: seq<nat>, taken: seq<nat>, e: Evac, stack: seq<nat>)
  {
    && RootPlaces(c, |m0|, taken)
    && CopyStackFine(c, m0, t0, roots, e, stack) && Sound(m0, t0, roots, e) && CopyComplete(m0, t0, taken, e, stack)
  }

  ghost predicate CopyHeap(c: Config, to: Space, m0: Memory, t0: Table, e: Evac) {
    Fixed(c, to, m0, t0, e) && VariantMemory(c, m0, t0, e) && Inside(c, to, t0, e)
  }

  // ---- Alignment ----

  // An object that holds a slot pattern starts, like its copy, on an 8-byte boundary.
  lemma BothAligned(c: Config, to: Space, m0: Memory, t0: Table, roots: seq<nat>, e: Evac, k: nat, src: nat)
    requires Fixed(c, to, m0, t0, e) && PointersAligned(m0, t0, roots) && k in e.visited && Reachable(m0, t0, roots, k)
    requires k in t0 && k <= src && src + 16 <= k + t0[k].size && IsSlot(m0, src)
    ensures k % 8 == 0 && e.visited[k] % 8 == 0
  {
    hide IsSlot, IsPow2, CopiesApart, NothingElse, Accounted, AlignedTo, Reachable;
    assert !NoPattern(m0, k, t0[k].size);
    assert CopyPlaced(c, to, t0[k], e.visited[k], e.next);
    MultipleOf8(k, t0[k].alignment);
    MultipleOf8(e.visited[k], t0[k].alignment);
  }

  // The fields of the copy are the fields of the original.
  lemma FieldOfOriginal(c: Config, to: Space, m0: Memory, t0: Table, roots: seq<nat>, e: Evac, k: nat, s: nat)
    requires Fixed(c, to, m0, t0, e) && PointersAligned(m0, t0, roots) && Reachable(m0, t0, roots, k)
    requires CopyField(t0, e.visited, k, s) && IsSlot(m0, s - e.visited[k] + k)
    ensures FieldSlot(m0, t0, k, s - e.visited[k] + k)
  {
    hide IsSlot, Reachable, Fixed;
    BothAligned(c, to, m0, t0, roots, e, k, s - e.visited[k] + k);
  }

  lemma FieldOfCopy(c: Config, to: Space, m0: Memory, t0: Table, roots: seq<nat>, e: Evac, k: nat, b: nat)
    requires Fixed(c, to, m0, t0, e) && PointersAligned(m0, t0, roots) && Reachable(m0, t0, roots, k)
    requires k in e.visited && FieldSlot(m0, t0, k, b)
    ensures b >= k && CopyField(t0, e.visited, k, b - k + e.visited[k])
  {
    hide IsSlot, Reachable, Fixed;
    BothAligned(c, to, m0, t0, roots, e, k, b);
  }

  // ---- Settling ----

  lemma CopySkipSettles(c: Config, to: Space, m0: Memory, t0: Table, e: Evac, s: nat, src: nat)
    requires CopyHeap(c, to, m0, t0, e) && Plays(c, m0, t0, e.visited, s, src)
    requires IsSlot(e.mem, s) ==>
      Target(e.mem, s) !in e.visited && (Target(e.mem, s) !in e.table || c.InSpace(to, Target(e.mem, s)))
    ensures SettledAs(m0, t0, e, s, src)
  {
    hide IsSlot, Target, Fixed, Plays, OriginalsUntouched, CopiesPayload;
    assert ValueKept(m0, e, s, src);
    var t := Target(m0, src);
    if IsSlot(m0, src) && t in t0 && Target(e.mem, s) == t {
      NotSkipped(c, to, m0, t0, e, t);
    }
  }

  lemma CopyCasSettles(
      c: Config, to: Space, m0: Memory, t0: Table, e: Evac, s: nat, ssrc: nat, v: nat, b: nat, src: nat)
    requires CopyHeap(c, to, m0, t0, e) && Plays(c, m0, t0, e.visited, s, ssrc)
    requires IsSlot(e.mem, s) && Target(e.mem, s) == v && v in e.visited
    requires Plays(c, m0, t0, e.visited, b, src) && (b == s || SettledAs(m0, t0, e, b, src))
    ensures SettledAs(m0, t0, e.(mem := Cas(e.mem, s, v, e.visited[v])), b, src)
  {
    hide IsSlot, Target, Fixed, Plays, Cas, OriginalsUntouched, CopiesPayload;
    PlaysPlace(c, to, m0, t0, e, s, ssrc);
    PlaysPlace(c, to, m0, t0, e, b, src);
    CopyBounds(c, to, m0, t0, e, v);
    CasEffect(e.mem, s, v, e.visited[v]);
    assert ValueKept(m0, e, b, src);
    if b == s {
      PlaysNamesOriginal(c, to, m0, t0, e, s, src);
    } else {
      CasSeparation(e.mem, s, v, e.visited[v], b);
    }
  }

  lemma InPlayStays(
      c: Config, m0: Memory, t0: Table, roots: seq<nat>, visited: map<nat, nat>, visited': map<nat, nat>, s: nat)
    requires InPlay(c, m0, t0, roots, visited, s)
    requires visited.Keys <= visited'.Keys && forall k :: k in visited ==> visited'[k] == visited[k]
    ensures InPlay(c, m0, t0, roots, visited', s)
  {
    hide RootPlace, Leads;
    var src :| Plays(c, m0, t0, visited, s, src) && Leads(m0, t0, roots, src);
    PlaysStays(c, m0, t0, visited, visited', s, src);
  }

  lemma PlaysStays(c: Config, m0: Memory, t0: Table, visited: map<nat, nat>, visited': map<nat, nat>, s: nat, src: nat)
    requires Plays(c, m0, t0, visited, s, src)
    requires visited.Keys <= visited'.Keys && forall k :: k in visited ==> visited'[k] == visited[k]
    ensures Plays(c, m0, t0, visited', s, src)
  {
    hide RootPlace;
    if !(RootPlace(c, |m0|, s) && src == s) {
      var j :| CopyField(t0, visited, j, s) && src == s - visited[j] + j;
      assert CopyField(t0, visited', j, s);
    }
  }

  lemma RootPlays(c: Config, m0: Memory, t0: Table, taken: seq<nat>, visited: map<nat, nat>, r: nat)
    requires RootPlaces(c, |m0|, taken) && r in taken
    ensures Plays(c, m0, t0, visited, r, r)
  {
    hide RootPlace;
  }

  lemma FieldPlays(c: Config, m0: Memory, t0: Table, visited: map<nat, nat>, k: nat, s: nat)
    requires CopyField(t0, visited, k, s)
    ensures Plays(c, m0, t0, visited, s, Source(visited, k, s))
  {
    hide RootPlace;
  }

  // ---- Popping, pushing ----

  // Everything that was settled or is the popped slot is settled afterwards.
  ghost predicate SettlesPop(c: Config, m0: Memory, t0: Table, e: Evac, e1: Evac, s: nat) {
    forall b, src :: Plays(c, m0, t0, e.visited, b, src) && (b == s || SettledAs(m0, t0, e, b, src)) ==>
      SettledAs(m0, t0, e1, b, src)
  }

  lemma CopyPop(c: Config, m0: Memory, t0: Table, roots: seq<nat>, taken: seq<nat>, e: Evac, e1: Evac, stack: seq<nat>)
    requires stack != [] && CopyGraph(c, m0, t0, roots, taken, e, stack)
    requires e1.visited == e.visited && SettlesPop(c, m0, t0, e, e1, stack[|stack| - 1])
    ensures CopyGraph(c, m0, t0, roots, taken, e1, stack[..|stack| - 1])
  {
    hide SettledAs, InPlay, Plays, CopyField, RootPlace, Reachable, Source;
    var s, rest := stack[|stack| - 1], stack[..|stack| - 1];
    assert forall b :: b in stack ==> b in rest || b == s;
    forall r | r in taken
      ensures r in rest || SettledAs(m0, t0, e1, r, r)
    {
      RootPlays(c, m0, t0, taken, e.visited, r);
    }
    forall k, b | CopyField(t0, e1.visited, k, b)
      ensures b in rest || SettledAs(m0, t0, e1, b, Source(e1.visited, k, b))
    {
      FieldPlays(c, m0, t0, e.visited, k, b);
    }
  }

  ghost predicate FieldsPushed(m0: Memory, t0: Table, e1: Evac, k: nat, pushed: seq<nat>) {
    forall b :: CopyField(t0, e1.visited, k, b) ==> b in pushed || SettledAs(m0, t0, e1, b, Source(e1.visited, k, b))
  }

  lemma CopyPush(
      c: Config, m0: Memory, t0: Table, roots: seq<nat>, taken: seq<nat>, e: Evac, e1: Evac, stack: seq<nat>,
      k: nat, pushed: seq<nat>)
    requires stack != [] && CopyGraph(c, m0, t0, roots, taken, e, stack)
    requires k in t0 && k !in e.visited && k in e1.visited && e1.visited == e.visited[k := e1.visited[k]]
    requires Reachable(m0, t0, roots, k) && SettlesPop(c, m0, t0, e, e1, stack[|stack| - 1])
    requires CopyStackFine(c, m0, t0, roots, e1, pushed) && FieldsPushed(m0, t0, e1, k, pushed)
    ensures CopyGraph(c, m0, t0, roots, taken, e1, stack[..|stack| - 1] + pushed)
  {
    hide SettledAs, InPlay, Plays, RootPlace, Reachable, CopyField, Source;
    var s, rest := stack[|stack| - 1], stack[..|stack| - 1];
    assert forall b :: b in stack ==> b in rest || b == s;
    forall b | b in rest + pushed
      ensures InPlay(c, m0, t0, roots, e1.visited, b)
    {
      if b in rest {
        assert b in stack;
        InPlayStays(c, m0, t0, roots, e.visited, e1.visited, b);
      }
    }
    forall r | r in taken
      ensures r in rest + pushed || SettledAs(m0, t0, e1, r, r)
    {
      RootPlays(c, m0, t0, taken, e.visited, r);
    }
    forall j, b | CopyField(t0, e1.visited, j, b)
      ensures b in rest + pushed || SettledAs(m0, t0, e1, b, Source(e1.visited, j, b))
    {
      if j != k {
        FieldBefore(t0, e.visited, e1.visited, k, j, b);
        FieldPlays(c, m0, t0, e.visited, j, b);
      }
    }
  }

  lemma FieldBefore(t0: Table, visited: map<nat, nat>, visited': map<nat, nat>, k: nat, j: nat, b: nat)
    requires k in visited' && visited' == visited[k := visited'[k]] && j != k && CopyField(t0, visited', j, b)
    ensures CopyField(t0, visited, j, b) && Source(visited, j, b) == Source(visited', j, b)
  {}

  // ---- One turn of the loop ----

  lemma CopyTop(
      c: Config, to: Space, m0: Memory, t0: Table, roots: seq<nat>, taken: seq<nat>, e: Evac, stack: seq<nat>)
    returns (src: nat)
    requires stack != [] && CopyGraph(c, m0, t0, roots, taken, e, stack)
    ensures Plays(c, m0, t0, e.visited, stack[|stack| - 1], src) && Leads(m0, t0, roots, src)
  {
    hide Plays, Leads, CopyComplete, Sound;
    var s := stack[|stack| - 1];
    assert InPlay(c, m0, t0, roots, e.visited, s);
    src :| Plays(c, m0, t0, e.visited, s, src) && Leads(m0, t0, roots, src);
  }

  lemma CopySettlesPop(c: Config, to: Space, m0: Memory, t0: Table, e: Evac, s: nat, src: nat, v: nat)
    requires CopyHeap(c, to, m0, t0, e) && Plays(c, m0, t0, e.visited, s, src)
    requires IsSlot(e.mem, s) && Target(e.mem, s) == v && v in e.visited
    ensures SettlesPop(c, m0, t0, e, e.(mem := Cas(e.mem, s, v, e.visited[v])), s)
  {
    hide IsSlot, Target, CopyHeap, Plays, Cas, SettledAs;
    forall b: nat, bsrc: nat | Plays(c, m0, t0, e.visited, b, bsrc) && (b == s || SettledAs(m0, t0, e, b, bsrc))
      ensures SettledAs(m0, t0, e.(mem := Cas(e.mem, s, v, e.visited[v])), b, bsrc)
    {
      CopyCasSettles(c, to, m0, t0, e, s, src, v, b, bsrc);
    }
  }

  lemma SkipSettlesPop(c: Config, to: Space, m0: Memory, t0: Table, e: Evac, s: nat)
    requires CopyHeap(c, to, m0, t0, e)
    requires IsSlot(e.mem, s) ==>
      Target(e.mem, s) !in e.visited && (Target(e.mem, s) !in e.table || c.InSpace(to, Target(e.mem, s)))
    ensures SettlesPop(c, m0, t0, e, e, s)
  {
    hide IsSlot, Target, CopyHeap, Plays, SettledAs;
    forall src: nat | Plays(c, m0, t0, e.visited, s, src)
      ensures SettledAs(m0, t0, e, s, src)
    {
      CopySkipSettles(c, to, m0, t0, e, s, src);
    }
  }

  // The scan of a copy, once its slot has been swung, finds exactly its fields.
  lemma CopyScanFine(c: Config, to: Space, m0: Memory, t0: Table, roots: seq<nat>, e: Evac, k: nat)
    requires CopyHeap(c, to, m0, t0, e) && PointersAligned(m0, t0, roots) && k in e.visited && k in t0
    requires Reachable(m0, t0, roots, k)
    ensures var pushed := ScanMemory(e.mem, e.visited[k], e.visited[k] + t0[k].size);
      CopyStackFine(c, m0, t0, roots, e, pushed) && FieldsPushed(m0, t0, e, k, pushed)
  {
    hide IsSlot, Target, Fixed, Plays, ScanMemory, OriginalsUntouched, CopiesPayload, Reachable;
    hide PointersAligned, InPlay, SettledAs;
    var a := e.visited[k];
    var pushed := ScanMemory(e.mem, a, a + t0[k].size);
    forall b: nat
      ensures b in pushed ==> InPlay(c, m0, t0, roots, e.visited, b)
      ensures CopyField(t0, e.visited, k, b) ==> b in pushed || SettledAs(m0, t0, e, b, Source(e.visited, k, b))
    {
      ScanMemoryExact(e.mem, a, a + t0[k].size, b);
      if CopyField(t0, e.visited, k, b) {
        FieldPlays(c, m0, t0, e.visited, k, b);
        assert ValueKept(m0, e, b, Source(e.visited, k, b));
        CopyFieldFine(c, to, m0, t0, roots, e, k, b);
      }
    }
  }

  lemma CopyFieldFine(c: Config, to: Space, m0: Memory, t0: Table, roots: seq<nat>, e: Evac, k: nat, b: nat)
    requires Fixed(c, to, m0, t0, e) && PointersAligned(m0, t0, roots) && Reachable(m0, t0, roots, k)
    requires CopyField(t0, e.visited, k, b)
    ensures IsSlot(m0, Source(e.visited, k, b)) ==> InPlay(c, m0, t0, roots, e.visited, b)
    ensures !IsSlot(m0, Source(e.visited, k, b)) ==> SettledAs(m0, t0, e, b, Source(e.visited, k, b))
  {
    hide IsSlot, Target, Fixed, Plays, Reachable, PointersAligned;
    var src := Source(e.visited, k, b);
    FieldPlays(c, m0, t0, e.visited, k, b);
    if IsSlot(m0, src) {
      FieldOfOriginal(c, to, m0, t0, roots, e, k, b);
      assert Leads(m0, t0, roots, src) by { FieldLeads(m0, t0, roots, k, src); }
    }
  }

  lemma FieldLeads(m0: Memory, t0: Table, roots: seq<nat>, k: nat, src: nat)
    requires FieldSlot(m0, t0, k, src) && Reachable(m0, t0, roots, k)
    ensures Leads(m0, t0, roots, src)
  {
    hide IsSlot, Target, FieldSlot, Reachable;
    if IsSlot(m0, src) && Target(m0, src) in t0 {
      FieldReaches(m0, t0, roots, k, src);
    }
  }

  lemma CopySound(
      c: Config, m0: Memory, t0: Table, roots: seq<nat>, taken: seq<nat>, e: Evac, stack: seq<nat>)
    requires CopyGraph(c, m0, t0, roots, taken, e, stack)
    ensures Sound(m0, t0, roots, e)
  {
    hide CopyStackFine, Sound, CopyComplete;
  }

  lemma CopyBooks(c: Config, to: Space, m0: Memory, t0: Table, e: Evac)
    requires CopyHeap(c, to, m0, t0, e)
    ensures ValidConfig(c, |e.mem|) && FromSpaceTable(c, to, t0) && Ledger(c, to, t0, e) && Inside(c, to, t0, e)
  {
    hide Fixed, VariantMemory;
    FixedBooks(c, to, m0, t0, e);
  }

  lemma CopyCopyStep(
      c: Config, to: Space, m0: Memory, t0: Table, roots: seq<nat>, taken: seq<nat>, e: Evac, stack: seq<nat>)
    requires CopyHeap(c, to, m0, t0, e) && PointersAligned(m0, t0, roots) && stack != []
    requires CopyGraph(c, m0, t0, roots, taken, e, stack)
    requires var s := stack[|stack| - 1]; var v := Target(e.mem, s);
      && IsSlot(e.mem, s) && v !in e.visited && v in e.table && !c.InSpace(to, v)
    ensures var r := Step(c, to, OfCopy, e, stack);
      && (r.Next? && Inside(c, to, t0, r.e) ==>
           CopyHeap(c, to, m0, t0, r.e) && CopyGraph(c, m0, t0, roots, taken, r.e, r.stack))
      && (LiveSlack(c, m0, t0, roots) ==> r.Next? && Inside(c, to, t0, r.e))
  {
    hide IsSlot, Target, Fixed, VariantMemory, CopyGraph, ScanMemory, Cas, CopyObject, AtomicCopy.Copy, Moved;
    hide Padding, Plays, Leads, PointersAligned, Reachable, LiveSlack, Sound, Ledger, FromSpaceTable, ValidConfig;
    var s := stack[|stack| - 1];
    var v := Target(e.mem, s);
    var src := CopyTop(c, to, m0, t0, roots, taken, e, stack);
    CopyPendingAt(c, to, m0, t0, roots, e, s, src);
    var r := CopyObject(c, to, e, s, v);
    if LiveSlack(c, m0, t0, roots) {
      assert Sound(m0, t0, roots, e) by { CopySound(c, m0, t0, roots, taken, e, stack); }
      LiveMakesRoom(c, to, m0, t0, roots, e, v);
      assert ValidConfig(c, |e.mem|) && FromSpaceTable(c, to, t0) && Ledger(c, to, t0, e) by {
        FixedBooks(c, to, m0, t0, e);
      }
      CopyObjectMoves(c, to, t0, e, s, v);
      CopiedAt(c, to, m0, t0, e, s, v);
      StaysRoomy(c, to, t0, c.Base(to) + e.next + Padding(c.Base(to) + e.next, t0[v].alignment), v);
      InsideOneMore(c, to, t0, e, r.e, v, c.Base(to) + e.next + Padding(c.Base(to) + e.next, t0[v].alignment));
    }
    if r.Done? && Inside(c, to, t0, r.e) {
      var n := t0[v].size;
      var a := c.Base(to) + e.next + Padding(c.Base(to) + e.next, t0[v].alignment);
      CopiedAt(c, to, m0, t0, e, s, v);
      var e1 := r.e.(mem := AtomicCopy.Copy(e.mem, a, v, n));
      VariantCopy(c, to, m0, t0, e, e1, v, a);
      CopySwing(c, to, m0, t0, roots, taken, e, e1, stack, s, src, v);
    }
  }

  lemma CopiedAt(c: Config, to: Space, m0: Memory, t0: Table, e: Evac, s: nat, v: nat)
    requires Fixed(c, to, m0, t0, e) && v in t0 && v in e.table && CopyObject(c, to, e, s, v).Done?
    ensures var n := t0[v].size; var a := c.Base(to) + e.next + Padding(c.Base(to) + e.next, t0[v].alignment);
      var r := CopyObject(c, to, e, s, v);
      && r.e.mem == Cas(AtomicCopy.Copy(e.mem, a, v, n), s, v, a)
      && Copied(c, to, e, r.e.(mem := AtomicCopy.Copy(e.mem, a, v, n)), v, a, n)
      && v !in e.visited && r.e.visited == e.visited[v := a]
  {
    hide Ledger, FromSpaceTable, Cas, CopyObject, AtomicCopy.Copy, Padding, Overlaps, CopyPlaced, Weight;
    CopyObjectMoves(c, to, t0, e, s, v);
  }

  lemma CopyPendingAt(c: Config, to: Space, m0: Memory, t0: Table, roots: seq<nat>, e: Evac, s: nat, src: nat)
    requires CopyHeap(c, to, m0, t0, e) && Plays(c, m0, t0, e.visited, s, src) && Leads(m0, t0, roots, src)
    requires var v := Target(e.mem, s); IsSlot(e.mem, s) && v !in e.visited && v in e.table && !c.InSpace(to, v)
    ensures var v := Target(e.mem, s);
      && v in t0 && c.Contains(v) && e.table[v] == t0[v] && Reachable(m0, t0, roots, v)
  {
    hide IsSlot, Target, Ledger, FromSpaceTable, Reachable, Plays, OriginalsUntouched, CopiesPayload, ValuesKept;
    var v := Target(e.mem, s);
    PendingIsOriginal(c, to, t0, e, v);
    LedgerAt(c, to, t0, e, v);
    PlaysNamesOriginal(c, to, m0, t0, e, s, src);
  }

  // e1 holds the copy of v; swinging the slot and pushing the copy's fields completes the turn.
  lemma CopySwing(
      c: Config, to: Space, m0: Memory, t0: Table, roots: seq<nat>, taken: seq<nat>, e: Evac, e1: Evac,
      stack: seq<nat>, s: nat, src: nat, v: nat)
    requires CopyHeap(c, to, m0, t0, e) && PointersAligned(m0, t0, roots) && stack != []
    requires CopyGraph(c, m0, t0, roots, taken, e, stack)
    requires s == stack[|stack| - 1] && CopyHeap(c, to, m0, t0, e1)
    requires v in t0 && v !in e.visited && v in e1.visited && e1.visited == e.visited[v := e1.visited[v]]
    requires forall b: nat, bsrc: nat :: Plays(c, m0, t0, e.visited, b, bsrc) ==>
      IsSlot(e1.mem, b) == IsSlot(e.mem, b) && Target(e1.mem, b) == Target(e.mem, b)
    requires Plays(c, m0, t0, e.visited, s, src) && IsSlot(e.mem, s) && Target(e.mem, s) == v
    requires Reachable(m0, t0, roots, v)
    ensures var e2 := e1.(mem := Cas(e1.mem, s, v, e1.visited[v]));
      && CopyHeap(c, to, m0, t0, e2)
      && CopyGraph(c, m0, t0, roots, taken, e2,
           stack[..|stack| - 1] + ScanMemory(e2.mem, e2.visited[v], e2.visited[v] + t0[v].size))
  {
    hide IsSlot, Target, Fixed, VariantMemory, CopyGraph, ScanMemory, Cas, Plays, PointersAligned, Reachable, SettledAs;
    var e2 := e1.(mem := Cas(e1.mem, s, v, e1.visited[v]));
    PlaysStays(c, m0, t0, e.visited, e1.visited, s, src);
    VariantCas(c, to, m0, t0, e1, s, src, v);
    VariantFixed(c, to, m0, t0, e1, e2);
    CopyScanFine(c, to, m0, t0, roots, e2, v);
    CopySettlesPop(c, to, m0, t0, e1, s, src, v);
    forall b: nat, bsrc: nat | Plays(c, m0, t0, e.visited, b, bsrc) && (b == s || SettledAs(m0, t0, e, b, bsrc))
      ensures SettledAs(m0, t0, e2, b, bsrc)
    {
      PlaysStays(c, m0, t0, e.visited, e1.visited, b, bsrc);
      if b != s {
        SettledStays(m0, t0, e, e1, v, b, bsrc);
      }
    }
    CopyPush(c, m0, t0, roots, taken, e, e2, stack, v, ScanMemory(e2.mem, e2.visited[v], e2.visited[v] + t0[v].size));
  }

  lemma SettledStays(m0: Memory, t0: Table, e: Evac, e1: Evac, v: nat, b: nat, src: nat)
    requires SettledAs(m0, t0, e, b, src) && Target(e1.mem, b) == Target(e.mem, b)
    requires v !in e.visited && v in e1.visited && e1.visited == e.visited[v := e1.visited[v]]
    ensures SettledAs(m0, t0, e1, b, src)
  {
    hide IsSlot, Target;
  }

  lemma VariantFixed(c: Config, to: Space, m0: Memory, t0: Table, e: Evac, e1: Evac)
    requires Fixed(c, to, m0, t0, e) && VariantMemory(c, m0, t0, e1) && e1 == e.(mem := e1.mem)
    ensures Fixed(c, to, m0, t0, e1)
  {
    hide Ledger, FromSpaceTable, ValuesKept, OriginalsUntouched, CopiesPayload;
    LedgerOf(c, to, t0, e, e1);
  }

  lemma CopyStep(
      c: Config, to: Space, m0: Memory, t0: Table, roots: seq<nat>, taken: seq<nat>, e: Evac, stack: seq<nat>)
    requires CopyHeap(c, to, m0, t0, e) && PointersAligned(m0, t0, roots) && stack != []
    requires CopyGraph(c, m0, t0, roots, taken, e, stack)
    ensures var r := Step(c, to, OfCopy, e, stack);
      && (r.Next? && Inside(c, to, t0, r.e) ==>
           CopyHeap(c, to, m0, t0, r.e) && CopyGraph(c, m0, t0, roots, taken, r.e, r.stack))
      && (LiveSlack(c, m0, t0, roots) ==> r.Next? && Inside(c, to, t0, r.e))
  {
    hide IsSlot, Target, Fixed, VariantMemory, CopyGraph, Cas, CopyObject, Plays, Leads, SettlesPop;
    hide ScanMemory, PointersAligned;
    var s := stack[|stack| - 1];
    var v := Target(e.mem, s);
    var src := CopyTop(c, to, m0, t0, roots, taken, e, stack);
    if IsSlot(e.mem, s) && v in e.visited {
      var e1 := e.(mem := Cas(e.mem, s, v, e.visited[v]));
      VariantCas(c, to, m0, t0, e, s, src, v);
      VariantFixed(c, to, m0, t0, e, e1);
      CopySettlesPop(c, to, m0, t0, e, s, src, v);
      CopyPop(c, m0, t0, roots, taken, e, e1, stack);
    } else if IsSlot(e.mem, s) && v in e.table && !c.InSpace(to, v) {
      CopyCopyStep(c, to, m0, t0, roots, taken, e, stack);
    } else {
      SkipSettlesPop(c, to, m0, t0, e, s);
      CopyPop(c, m0, t0, roots, taken, e, e, stack);
    }
  }

  // ---- The loop, the roots ----

  lemma {:induction false} CopyForward(
      c: Config, to: Space, m0: Memory, t0: Table, roots: seq<nat>, taken: seq<nat>, e: Evac, stack: seq<nat>)
    requires CopyHeap(c, to, m0, t0, e) && PointersAligned(m0, t0, roots)
    requires CopyGraph(c, m0, t0, roots, taken, e, stack)
    ensures var r := Forward(c, to, OfCopy, e, stack);
      && (r.Done? && Inside(c, to, t0, r.e) ==>
           CopyHeap(c, to, m0, t0, r.e) && CopyGraph(c, m0, t0, roots, taken, r.e, []))
      && (LiveSlack(c, m0, t0, roots) ==> r.Done? && Inside(c, to, t0, r.e))
    decreases Pending(c, to, e.table), |stack|
  {
    hide Inside, Extends, CopyHeap, CopyGraph, Step, Pending, PointersAligned, LiveSlack, Ledger;
    hide FromSpaceTable, Books, Full;
    CopyBooks(c, to, m0, t0, e);
    if stack != [] {
      CopyStep(c, to, m0, t0, roots, taken, e, stack);
      StepLedger(c, to, OfCopy, t0, e, stack);
      var r := Step(c, to, OfCopy, e, stack);
      if r.Next? {
        ForwardLedger(c, to, OfCopy, t0, r.e, r.stack);
        var f := Forward(c, to, OfCopy, r.e, r.stack);
        if Inside(c, to, t0, f.e) {
          InsideBefore(c, to, t0, r.e, f.e);
        }
        if Inside(c, to, t0, r.e) {
          CopyForward(c, to, m0, t0, roots, taken, r.e, r.stack);
        }
      }
    }
  }

  lemma CopyTakeRoot(c: Config, m0: Memory, t0: Table, roots: seq<nat>, taken: seq<nat>, e: Evac, r: nat)
    requires CopyGraph(c, m0, t0, roots, taken, e, []) && r in roots && RootPlace(c, |m0|, r)
    ensures CopyGraph(c, m0, t0, roots, taken + [r], e, [r])
  {
    hide SettledAs, CopyField, Reachable, IsSlot, Target, Plays;
    assert RootPlaces(c, |m0|, [r]);
    RootPlays(c, m0, t0, [r], e.visited, r);
    assert Leads(m0, t0, roots, r) by {
      if IsSlot(m0, r) && Target(m0, r) in t0 {
        RootReaches(m0, t0, roots, r);
      }
    }
  }

  lemma CopySkipRoot(c: Config, to: Space, m0: Memory, t0: Table, roots: seq<nat>, taken: seq<nat>, e: Evac, r: nat)
    requires CopyHeap(c, to, m0, t0, e) && CopyGraph(c, m0, t0, roots, taken, e, []) && RootPlace(c, |m0|, r)
    requires !(IsSlot(e.mem, r) && c.Contains(Target(e.mem, r)))
    ensures CopyGraph(c, m0, t0, roots, taken + [r], e, [])
  {
    hide SettledAs, CopyField, Reachable, IsSlot, Target, Plays, Fixed, VariantMemory;
    RootPlays(c, m0, t0, [r], e.visited, r);
    if IsSlot(e.mem, r) {
      NotContained(c, to, m0, t0, e, Target(e.mem, r));
    }
    CopySkipSettles(c, to, m0, t0, e, r, r);
  }

  lemma {:induction false} CopyRoots(
      c: Config, to: Space, m0: Memory, t0: Table, roots: seq<nat>, taken: seq<nat>, left: seq<nat>, e: Evac)
    requires CopyHeap(c, to, m0, t0, e) && PointersAligned(m0, t0, roots) && CopyGraph(c, m0, t0, roots, taken, e, [])
    requires roots == taken + left && RootPlaces(c, |m0|, roots)
    ensures var r := ForwardRoots(c, to, OfCopy, e, left);
      && (r.Done? && Inside(c, to, t0, r.e) ==>
           CopyHeap(c, to, m0, t0, r.e) && CopyGraph(c, m0, t0, roots, roots, r.e, []))
      && (LiveSlack(c, m0, t0, roots) ==> r.Done? && Inside(c, to, t0, r.e))
    decreases |left|
  {
    hide Inside, Extends, CopyHeap, CopyGraph, Forward, IsSlot, Target, RootPlace, PointersAligned, LiveSlack, Ledger;
    hide FromSpaceTable, Books, Full;
    CopyBooks(c, to, m0, t0, e);
    if left == [] {
      assert taken == roots;
    } else {
      var r, rest := left[0], left[1..];
      assert r in roots && taken + [r] + rest == roots;
      if IsSlot(e.mem, r) && c.Contains(Target(e.mem, r)) {
        CopyTakeRoot(c, m0, t0, roots, taken, e, r);
        CopyForward(c, to, m0, t0, roots, taken + [r], e, [r]);
        var f := Forward(c, to, OfCopy, e, [r]);
        ForwardLedger(c, to, OfCopy, t0, e, [r]);
        if f.Done? {
          RootsLedger(c, to, OfCopy, t0, f.e, rest);
          var g := ForwardRoots(c, to, OfCopy, f.e, rest);
          if Inside(c, to, t0, g.e) {
            InsideBefore(c, to, t0, f.e, g.e);
          }
        }
        if f.Done? && Inside(c, to, t0, f.e) {
          CopyRoots(c, to, m0, t0, roots, taken + [r], rest, f.e);
        }
      } else {
        CopySkipRoot(c, to, m0, t0, roots, taken, e, r);
        CopyRoots(c, to, m0, t0, roots, taken + [r], rest, e);
      }
    }
  }
}
