/**
 What a collection does, at every point of a run of objects that ask for no more alignment
 than their size: nothing has to be known about room.
 */
module NaturalRuns {
  import opened Heaps
  import opened Evacuation
  import opened Collections
  import opened EvacuationOrder
  import opened PathEquivalence
  import opened Runs

  // After any natural run, with any writes in between, the next collection fits.
  lemma NextCollectionFits(c: Config, s: State, ops: seq<Op>, roots: seq<nat>)
    requires NaturalInvariant(c, s) && Natural(ops) && c.heapSize >= PAGE && RootPlaces(c, |s.mem|, roots)
    ensures var s1 := Run(c, s, ops);
      && NaturalInvariant(c, s1) && Invariant(c, s1) && |s1.mem| == |s.mem|
      && Fits(c, OfOriginal, s1, roots)
  {
    hide NaturalInvariant, Invariant, Run, RootPlaces, LiveSlack, Fits;
    NaturalRun(c, s, ops, |ops|);
    assert ops[..|ops|] == ops;
    var s1 := Run(c, s, ops);
    NaturalSlack(c, s1, roots);
    NaturalHeap(c, s1);
    LiveSlackFits(c, s1, roots);
  }

  lemma NaturalHeap(c: Config, s: State)
    requires NaturalInvariant(c, s)
    ensures Invariant(c, s)
  {
    hide Invariant;
  }

  // It copies exactly the reachable objects, each once.
  lemma RetentionInRuns(c: Config, s: State, ops: seq<Op>, roots: seq<nat>)
    requires NaturalInvariant(c, s) && Natural(ops) && c.heapSize >= PAGE && RootPlaces(c, |s.mem|, roots)
    ensures var s1 := Run(c, s, ops); var o := Evacuate(c, OfOriginal, s1, roots);
      && o.Done?
      && (forall k :: k in o.e.visited <==> Reachable(s1.mem, s1.table, roots, k))
      && TableOfCopies(s1.table, o.e.visited, Collect(c, OfOriginal, s1, roots).table)
  {
    hide NaturalInvariant, Invariant, Run, RootPlaces, Fits, Evacuate, Collect, TableOfCopies, Reachable;
    NextCollectionFits(c, s, ops, roots);
    ExactRetention(c, Run(c, s, ops), roots);
  }

  // And any walk of fields from a root reads the same payload after it.
  lemma PathsReadInRuns(c: Config, s: State, ops: seq<Op>, roots: seq<nat>, root: nat, offsets: seq<nat>)
    requires NaturalInvariant(c, s) && Natural(ops) && c.heapSize >= PAGE && RootPlaces(c, |s.mem|, roots)
    requires ValidWalk(Run(c, s, ops).mem, Run(c, s, ops).table, roots, root, offsets)
    ensures var s1 := Run(c, s, ops);
      var visited := Evacuate(c, OfOriginal, s1, roots).e.visited; var m1 := Collect(c, OfOriginal, s1, roots).mem;
      var k := Walk(s1.mem, root, offsets); var k' := Walk(m1, root, offsets);
      && k in visited && k in s1.table && k' == Place(visited, k, |offsets|)
      && SamePayload(c, s1.mem, s1.table, roots, visited, k, m1, k', s1.table[k].size)
      && SameFields(s1.mem, s1.table, visited, k, m1, k')
  {
    hide NaturalInvariant, Invariant, Run, RootPlaces, Fits, Evacuate, Collect, Walk;
    hide SamePayload, SameFields, FieldSlot;
    NextCollectionFits(c, s, ops, roots);
    PathsRead(c, Run(c, s, ops), roots, root, offsets);
  }
}
