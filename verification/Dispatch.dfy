/**
 Starting collections beside the mutators: collect() under the collector's lock, the one
 worker thread that runs the dispatched tasks in order, and allocations, which reserve
 space in one critical section and record their metadata in another.
 */
module Dispatch {
  import opened Heaps
  import opened FatPtrs

  // One dispatched collection. A finished one, aborted or not, has made its future ready.
  datatype Job = Job(to: Space, visited: set<nat>, finished: bool)

  // `pending` are the addresses reserved by allocations that have not recorded them yet.
  // m_collect_result is the future of the last job.
  datatype DispatchState = DispatchState(active: Space, table: set<nat>, pending: map<nat, nat>, jobs: seq<Job>)

  datatype Event =
    | ReserveFor(tid: nat, a: nat)   // first section of alloc_attempt
    | Record(tid: nat)               // second section: the metadata of a reserved object
    | GiveUp(tid: nat)               // an exception between the two
    | Dispatch                       // collect() finds the last collection ready and calls async_collect
    | Copy(job: nat, a: nat)         // the worker records a copy in to-space
    | Drop(job: nat, k: nat)         // the worker erases a copied original
    | Finish(job: nat)               // the worker sweeps and completes the task
    | Abort(job: nat)                // an exception completes the task without a sweep

  // The worker runs jobs in the order they were pushed.
  predicate Running(jobs: seq<Job>, job: nat) {
    job < |jobs| && !jobs[job].finished && forall i :: 0 <= i < job ==> jobs[i].finished
  }

  predicate Ready(jobs: seq<Job>) {
    jobs == [] || jobs[|jobs| - 1].finished
  }

  // Entries outside to-space that were not visited leave the table.
  function Swept(c: Config, job: Job, table: set<nat>): set<nat> {
    set k | k in table && (c.InSpace(job.to, k) || k in job.visited)
  }

  function Next(c: Config, s: DispatchState, event: Event): Option<DispatchState> {
    match event
    case ReserveFor(tid, a) =>
      if tid !in s.pending && c.InSpace(s.active, a) then Some(s.(pending := s.pending[tid := a])) else None
    case Record(tid) =>
      if tid in s.pending then Some(s.(pending := s.pending - {tid}, table := s.table + {s.pending[tid]})) else None
    case GiveUp(tid) =>
      if tid in s.pending then Some(s.(pending := s.pending - {tid})) else None
    case Dispatch =>
      if Ready(s.jobs) then
        Some(s.(active := s.active.Other(), jobs := s.jobs + [Job(s.active.Other(), {}, false)]))
      else None
    case Copy(job, a) =>
      if Running(s.jobs, job) && c.InSpace(s.jobs[job].to, a) then Some(s.(table := s.table + {a})) else None
    case Drop(job, k) =>
      if Running(s.jobs, job) && k in s.table && !c.InSpace(s.jobs[job].to, k) then
        Some(s.(table := s.table - {k}, jobs := s.jobs[job := s.jobs[job].(visited := s.jobs[job].visited + {k})]))
      else None
    case Finish(job) =>
      if Running(s.jobs, job) then
        Some(s.(table := Swept(c, s.jobs[job], s.table), jobs := s.jobs[job := s.jobs[job].(finished := true)]))
      else None
    case Abort(job) =>
      if Running(s.jobs, job) then Some(s.(jobs := s.jobs[job := s.jobs[job].(finished := true)])) else None
  }

  function Trace(c: Config, s: DispatchState, events: seq<Event>): Option<DispatchState>
    decreases |events|
  {
    if events == [] then Some(s)
    else
      match Next(c, s, events[0])
      case None => None
      case Some(s1) => Trace(c, s1, events[1..])
  }

  function Initially(): DispatchState {
    DispatchState(Zero, {}, map[], [])
  }

  // ---- At most one collection in flight ----

  // Only the last job may be unfinished, and it evacuates into the active space.
  ghost predicate OneInFlight(s: DispatchState) {
    && (forall i :: 0 <= i < |s.jobs| - 1 ==> s.jobs[i].finished)
    && (!Ready(s.jobs) ==> s.jobs[|s.jobs| - 1].to == s.active)
  }

  lemma NextKeepsOneInFlight(c: Config, s: DispatchState, event: Event)
    requires OneInFlight(s) && Next(c, s, event).Some?
    ensures OneInFlight(Next(c, s, event).value)
  {}

  // In every run at most one dispatched collection is unfinished.
  lemma {:induction false} SingleCollection(c: Config, s: DispatchState, events: seq<Event>)
    requires OneInFlight(s) && Trace(c, s, events).Some?
    ensures OneInFlight(Trace(c, s, events).value)
    ensures var jobs := Trace(c, s, events).value.jobs;
      forall i, j :: 0 <= i < |jobs| && 0 <= j < |jobs| && !jobs[i].finished && !jobs[j].finished ==> i == j
    decreases |events|
  {
    hide Next;
    if events != [] {
      NextKeepsOneInFlight(c, s, events[0]);
      SingleCollection(c, Next(c, s, events[0]).value, events[1..]);
    }
  }

  // ---- What a flip finds in the space that becomes to-space ----

  ghost predicate FlipClean(c: Config, s: DispatchState) {
    forall k :: k in s.table ==> !c.InSpace(s.active.Other(), k)
  }

  // No flip falls between a reservation and its insert, and no collection aborts.
  ghost predicate Disciplined(c: Config, s: DispatchState, events: seq<Event>)
    decreases |events|
  {
    events != [] ==>
      && (events[0].Dispatch? ==> s.pending == map[])
      && !events[0].Abort?
      && (Next(c, s, events[0]).Some? ==> Disciplined(c, Next(c, s, events[0]).value, events[1..]))
  }

  // Reservations are in the active space; entries are in one of the spaces, and in the active one while
  // nothing is being collected; what has been visited is out of the table.
  ghost predicate Epoch(c: Config, s: DispatchState) {
    && OneInFlight(s)
    && (forall k :: k in s.table ==> c.Contains(k))
    && (forall tid :: tid in s.pending ==> c.InSpace(s.active, s.pending[tid]))
    && (Ready(s.jobs) ==> FlipClean(c, s))
    && (!Ready(s.jobs) ==> forall k :: k in s.jobs[|s.jobs| - 1].visited && k in s.table ==> c.InSpace(s.active, k))
  }

  lemma RunningIsLast(s: DispatchState, job: nat)
    requires OneInFlight(s) && Running(s.jobs, job)
    ensures job == |s.jobs| - 1 && !Ready(s.jobs) && s.jobs[job].to == s.active
  {}

  lemma NextKeepsEpoch(c: Config, s: DispatchState, event: Event)
    requires SpacesApart(c) && Epoch(c, s) && Next(c, s, event).Some?
    requires (event.Dispatch? ==> s.pending == map[]) && !event.Abort?
    ensures Epoch(c, Next(c, s, event).value)
  {
    NextKeepsOneInFlight(c, s, event);
    if event.Copy? || event.Drop? || event.Finish? {
      RunningIsLast(s, event.job);
    }
  }

  lemma {:induction false} DisciplinedKeepsEpoch(c: Config, s: DispatchState, events: seq<Event>)
    requires SpacesApart(c) && Epoch(c, s) && Disciplined(c, s, events) && Trace(c, s, events).Some?
    ensures Epoch(c, Trace(c, s, events).value)
    decreases |events|
  {
    hide Epoch, Next;
    if events != [] {
      NextKeepsEpoch(c, s, events[0]);
      DisciplinedKeepsEpoch(c, Next(c, s, events[0]).value, events[1..]);
    }
  }

  // In a disciplined run every flip finds the space it turns into to-space without metadata.
  lemma {:induction false} FlipsFindEmptySpace(c: Config, events: seq<Event>)
    requires SpacesApart(c) && Disciplined(c, Initially(), events) && Trace(c, Initially(), events).Some?
    requires Next(c, Trace(c, Initially(), events).value, Dispatch).Some?
    ensures FlipClean(c, Trace(c, Initially(), events).value)
  {
    hide Next, FlipClean, Disciplined, Trace;
    assert Epoch(c, Initially()) by { InitialEpoch(c); }
    DisciplinedKeepsEpoch(c, Initially(), events);
    ReadyIsClean(c, Trace(c, Initially(), events).value);
  }

  lemma InitialEpoch(c: Config)
    ensures Epoch(c, Initially())
  {}

  lemma ReadyIsClean(c: Config, s: DispatchState)
    requires Epoch(c, s) && Next(c, s, Dispatch).Some?
    ensures FlipClean(c, s)
  {}

  // ---- When a flip is not clean ----

  // An insert of an address reserved before the last flip.
  predicate Late(c: Config, s: DispatchState, event: Event) {
    event.Record? && event.tid in s.pending && c.InSpace(s.active.Other(), s.pending[event.tid])
  }

  ghost predicate SomeLate(c: Config, s: DispatchState, events: seq<Event>)
    decreases |events|
  {
    events != [] &&
    (Late(c, s, events[0]) || (Next(c, s, events[0]).Some? && SomeLate(c, Next(c, s, events[0]).value, events[1..])))
  }

  // Between collections: the next flip is clean exactly when the last collection left nothing
  // outside the active space and no insert since then was late.
  lemma {:induction false} NextFlipCleanIff(c: Config, s: DispatchState, events: seq<Event>)
    requires OneInFlight(s) && Ready(s.jobs) && Trace(c, s, events).Some? && Dispatch !in events
    ensures var s1 := Trace(c, s, events).value;
      Next(c, s1, Dispatch).Some? && (FlipClean(c, s1) <==> FlipClean(c, s) && !SomeLate(c, s, events))
    decreases |events|
  {
    hide FlipClean, Late;
    if events != [] {
      var s1 := Next(c, s, events[0]).value;
      assert events[0] in events && events[0] != Dispatch;
      QuietStep(c, s, events[0]);
      NextFlipCleanIff(c, s1, events[1..]);
    }
  }

  lemma QuietStep(c: Config, s: DispatchState, event: Event)
    requires OneInFlight(s) && Ready(s.jobs) && Next(c, s, event).Some? && !event.Dispatch?
    ensures var s1 := Next(c, s, event).value;
      s1.jobs == s.jobs && s1.active == s.active && (FlipClean(c, s1) <==> FlipClean(c, s) && !Late(c, s, event))
  {
    if event.Copy? || event.Drop? || event.Finish? || event.Abort? {
      RunningIsLast(s, event.job);
      assert false;
    }
    var s1 := Next(c, s, event).value;
    if event.Record? {
      assert s.pending[event.tid] in s1.table;
    }
  }

  // A completed collection leaves its from-space clean exactly when no visited address was recorded
  // again there; an aborted one exactly when nothing is left there.
  lemma EndCleanIff(c: Config, s: DispatchState, event: Event)
    requires SpacesApart(c) && OneInFlight(s) && Next(c, s, event).Some? && (event.Finish? || event.Abort?)
    ensures var s1 := Next(c, s, event).value; var job := s.jobs[event.job];
      && Ready(s1.jobs)
      && (FlipClean(c, s1) <==> forall k :: k in s.table && (event.Finish? ==> k in job.visited) ==>
           !c.InSpace(job.to.Other(), k))
  {
    RunningIsLast(s, event.job);
    var s1 := Next(c, s, event).value;
    if event.Finish? {
      assert forall k :: k in s1.table <==> k in s.table && (c.InSpace(s.active, k) || k in s.jobs[event.job].visited);
    }
  }

  // ---- What stays managed ----

  // Running one sequence of events after another.
  lemma {:induction false} TraceJoin(c: Config, s: DispatchState, events: seq<Event>, more: seq<Event>)
    requires Trace(c, s, events).Some?
    ensures Trace(c, s, events + more) == Trace(c, Trace(c, s, events).value, more)
    decreases |events|
  {
    hide Next;
    if events == [] {
      assert events + more == more;
    } else {
      assert (events + more)[1..] == events[1..] + more;
      TraceJoin(c, Next(c, s, events[0]).value, events[1..], more);
    }
  }

  // An entry leaves the table only when the worker has copied it, or finds it unvisited outside to-space at
  // the end; one enters it only as a recorded allocation or as a copy.
  lemma TableChangesExactly(c: Config, s: DispatchState, event: Event, k: nat)
    requires Next(c, s, event).Some?
    ensures var s1 := Next(c, s, event).value;
      && (k in s.table && k !in s1.table <==>
           k in s.table && ((event.Drop? && event.k == k)
             || (event.Finish? && !c.InSpace(s.jobs[event.job].to, k) && k !in s.jobs[event.job].visited)))
      && (k !in s.table && k in s1.table <==> k !in s.table && k in InsertedBy(s, event))
  {}

  // What an event records.
  function InsertedBy(s: DispatchState, event: Event): set<nat> {
    match event
    case Record(tid) => if tid in s.pending then {s.pending[tid]} else {}
    case Copy(_, a) => {a}
    case _ => {}
  }

  function Inserted(c: Config, s: DispatchState, events: seq<Event>): set<nat>
    decreases |events|
  {
    if events == [] || Next(c, s, events[0]).None? then {}
    else InsertedBy(s, events[0]) + Inserted(c, Next(c, s, events[0]).value, events[1..])
  }

  lemma ActiveStep(c: Config, s: DispatchState, event: Event)
    requires OneInFlight(s) && Next(c, s, event).Some? && !event.Dispatch?
    ensures var s1 := Next(c, s, event).value;
      && s1.active == s.active && |s1.jobs| == |s.jobs|
      && forall k :: c.InSpace(s.active, k) ==> (k in s1.table <==> k in s.table || k in InsertedBy(s, event))
  {
    if event.Copy? || event.Drop? || event.Finish? || event.Abort? {
      RunningIsLast(s, event.job);
    }
    forall k | c.InSpace(s.active, k)
      ensures k in Next(c, s, event).value.table <==> k in s.table || k in InsertedBy(s, event)
    {
      TableChangesExactly(c, s, event, k);
    }
  }

  // Until the next flip the active space holds what it held, and every allocation recorded and every copy
  // made in it since: nothing of it is ever swept.
  lemma {:induction false} ActiveContents(c: Config, s: DispatchState, events: seq<Event>)
    requires OneInFlight(s) && Trace(c, s, events).Some? && Dispatch !in events
    ensures var s1 := Trace(c, s, events).value;
      && s1.active == s.active && |s1.jobs| == |s.jobs|
      && forall k :: c.InSpace(s.active, k) ==> (k in s1.table <==> k in s.table || k in Inserted(c, s, events))
    decreases |events|
  {
    hide Next, InsertedBy, OneInFlight;
    if events != [] {
      assert events[0] in events && events[0] != Dispatch;
      ActiveStep(c, s, events[0]);
      NextKeepsOneInFlight(c, s, events[0]);
      ActiveContents(c, Next(c, s, events[0]).value, events[1..]);
    }
  }

  // A thread has a reservation open from the moment it reserves until it records it or gives it up.
  lemma OpenExactly(c: Config, s: DispatchState, event: Event, tid: nat)
    requires Next(c, s, event).Some?
    ensures tid in Next(c, s, event).value.pending <==>
      || (event.ReserveFor? && event.tid == tid)
      || (tid in s.pending && event != Record(tid) && event != GiveUp(tid))
  {}

  // Meanwhile it stays the same, whatever happens.
  lemma {:induction false} ReservationStays(c: Config, s: DispatchState, events: seq<Event>, tid: nat)
    requires tid in s.pending && Trace(c, s, events).Some?
    requires forall e :: e in events && (e.Record? || e.GiveUp?) ==> e.tid != tid
    ensures var s1 := Trace(c, s, events).value; tid in s1.pending && s1.pending[tid] == s.pending[tid]
    decreases |events|
  {
    hide Swept, Running;
    if events != [] {
      assert events[0] in events;
      ReservationStays(c, Next(c, s, events[0]).value, events[1..], tid);
    }
  }

  // An object reserved and recorded without a flip between is managed until the next flip, whatever the
  // worker copies, drops and sweeps meanwhile.
  lemma RecordedStays(
      c: Config, s: DispatchState, tid: nat, a: nat, between: seq<Event>, after: seq<Event>)
    requires OneInFlight(s) && Dispatch !in between && Dispatch !in after
    requires Trace(c, s, [ReserveFor(tid, a)] + (between + ([Record(tid)] + after))).Some?
    requires forall e :: e in between && (e.Record? || e.GiveUp?) ==> e.tid != tid
    ensures a in Trace(c, s, [ReserveFor(tid, a)] + (between + ([Record(tid)] + after))).value.table
  {
    hide Next, OneInFlight, InsertedBy, Swept, Running, Trace, Inserted;
    var rest := [Record(tid)] + after;
    TraceSplit(c, s, [ReserveFor(tid, a)], between + rest);
    var s1 := Trace(c, s, [ReserveFor(tid, a)]).value;
    ReserveOpens(c, s, tid, a);
    NextKeepsOneInFlight(c, s, ReserveFor(tid, a));
    TraceSplit(c, s1, between, rest);
    var s2 := Trace(c, s1, between).value;
    ActiveContents(c, s1, between);
    ReservationStays(c, s1, between, tid);
    TraceKeepsOneInFlight(c, s1, between);
    ActiveContents(c, s2, rest);
    RecordInserts(c, s2, after, tid, a);
  }

  lemma ReserveOpens(c: Config, s: DispatchState, tid: nat, a: nat)
    requires Trace(c, s, [ReserveFor(tid, a)]).Some?
    ensures var s1 := Trace(c, s, [ReserveFor(tid, a)]).value;
      && Next(c, s, ReserveFor(tid, a)) == Some(s1) && tid in s1.pending && s1.pending[tid] == a
      && c.InSpace(s1.active, a)
  {
    assert Trace(c, Next(c, s, ReserveFor(tid, a)).value, []) == Next(c, s, ReserveFor(tid, a));
  }

  lemma RecordInserts(c: Config, s: DispatchState, after: seq<Event>, tid: nat, a: nat)
    requires Trace(c, s, [Record(tid)] + after).Some? && tid in s.pending && s.pending[tid] == a
    ensures a in Inserted(c, s, [Record(tid)] + after)
  {
    assert a in InsertedBy(s, Record(tid));
  }

  lemma TraceKeepsOneInFlight(c: Config, s: DispatchState, events: seq<Event>)
    requires OneInFlight(s) && Trace(c, s, events).Some?
    ensures OneInFlight(Trace(c, s, events).value)
  {
    hide OneInFlight, Trace;
    SingleCollection(c, s, events);
  }

  lemma {:induction false} TraceSplit(c: Config, s: DispatchState, events: seq<Event>, more: seq<Event>)
    requires Trace(c, s, events + more).Some?
    ensures Trace(c, s, events).Some?
    ensures Trace(c, s, events + more) == Trace(c, Trace(c, s, events).value, more)
    decreases |events|
  {
    hide Next;
    if events == [] {
      assert events + more == more;
    } else {
      assert (events + more)[1..] == events[1..] + more;
      TraceSplit(c, Next(c, s, events[0]).value, events[1..], more);
    }
  }

  // ---- What a collection has visited ----

  // The jobs of a run: one for each flip, alternating between the spaces; what a job has visited is what
  // the worker dropped for it; and it has finished when the worker finished or aborted it.
  ghost predicate JobHistory(s: DispatchState, events: seq<Event>, before: seq<Job>, j: nat)
    requires j < |s.jobs|
  {
    var job := s.jobs[j];
    && (forall k :: k in job.visited <==> (j < |before| && k in before[j].visited) || Drop(j, k) in events)
    && (job.finished <==> (j < |before| && before[j].finished) || Finish(j) in events || Abort(j) in events)
    && (j < |before| ==> job.to == before[j].to)
  }

  lemma JobStep(c: Config, s: DispatchState, event: Event, rest: seq<Event>, s1: DispatchState, j: nat)
    requires Next(c, s, event).Some? && j < |s1.jobs|
    requires JobHistory(s1, rest, Next(c, s, event).value.jobs, j)
    ensures JobHistory(s1, [event] + rest, s.jobs, j)
  {
    hide Swept;
  }

  lemma {:induction false} JobsFollow(c: Config, s: DispatchState, events: seq<Event>, j: nat)
    requires Trace(c, s, events).Some? && j < |Trace(c, s, events).value.jobs|
    ensures JobHistory(Trace(c, s, events).value, events, s.jobs, j)
    decreases |events|
  {
    hide Next, JobHistory;
    if events == [] {
      assert JobHistory(s, events, s.jobs, j) by { NoHistory(s, j); }
    } else {
      JobsFollow(c, Next(c, s, events[0]).value, events[1..], j);
      JobStep(c, s, events[0], events[1..], Trace(c, s, events).value, j);
      assert [events[0]] + events[1..] == events;
    }
  }

  lemma NoHistory(s: DispatchState, j: nat)
    requires j < |s.jobs|
    ensures JobHistory(s, [], s.jobs, j)
  {}

  function Flips(events: seq<Event>): nat
    decreases |events|
  {
    if events == [] then 0 else Flips(events[1..]) + if events[0].Dispatch? then 1 else 0
  }

  function Turned(sp: Space, n: nat): Space {
    if n % 2 == 0 then sp else sp.Other()
  }

  // Every flip dispatches one job, which evacuates into the space the flip makes active.
  lemma {:induction false} FlipsAlternate(c: Config, s: DispatchState, events: seq<Event>)
    requires Trace(c, s, events).Some?
    ensures var s1 := Trace(c, s, events).value; var n := |s.jobs|;
      && |s1.jobs| == n + Flips(events) && s1.active == Turned(s.active, Flips(events))
      && forall j :: n <= j < |s1.jobs| ==> s1.jobs[j].to == Turned(s.active.Other(), j - n)
    decreases |events|
  {
    hide Next, Turned, JobHistory;
    if events == [] {
      TurnedStep(s.active, 0);
    } else {
      var s1 := Next(c, s, events[0]).value;
      FlipsAlternate(c, s1, events[1..]);
      FlipOrNot(c, s, events[0]);
      var jobs := Trace(c, s, events).value.jobs;
      if events[0].Dispatch? {
        JobsFollow(c, s1, events[1..], |s.jobs|);
        JobSpace(Trace(c, s, events).value, events[1..], s1.jobs, |s.jobs|);
        TurnedStep(s.active, Flips(events[1..]));
        forall j | |s.jobs| <= j < |jobs|
          ensures jobs[j].to == Turned(s.active.Other(), j - |s.jobs|)
        {
          if j > |s.jobs| {
            TurnedStep(s1.active, j - |s1.jobs|);
          } else {
            TurnedStep(s1.active, 0);
          }
        }
      }
    }
  }

  lemma FlipOrNot(c: Config, s: DispatchState, event: Event)
    requires Next(c, s, event).Some?
    ensures var s1 := Next(c, s, event).value;
      if event.Dispatch? then s1.active == s.active.Other() && s1.jobs == s.jobs + [Job(s1.active, {}, false)]
      else s1.active == s.active && |s1.jobs| == |s.jobs|
  {}

  lemma JobSpace(s: DispatchState, events: seq<Event>, before: seq<Job>, j: nat)
    requires j < |s.jobs| && j < |before| && JobHistory(s, events, before, j)
    ensures s.jobs[j].to == before[j].to
  {}

  lemma TurnedStep(sp: Space, n: nat)
    ensures Turned(sp, 0) == sp
    ensures Turned(sp.Other(), n) == Turned(sp, n + 1) && Turned(sp.Other().Other(), n) == Turned(sp, n)
  {}

  // ---- A whole collection ----

  lemma {:induction false} InsertedInActive(c: Config, s: DispatchState, events: seq<Event>)
    requires SpacesApart(c) && Epoch(c, s) && Disciplined(c, s, events) && Trace(c, s, events).Some?
    requires Dispatch !in events
    ensures forall k :: k in Inserted(c, s, events) ==> c.InSpace(s.active, k)
    decreases |events|
  {
    hide Next, Epoch, InsertedBy;
    if events != [] {
      assert events[0] in events && events[0] != Dispatch;
      InsertInActive(c, s, events[0]);
      NextKeepsEpoch(c, s, events[0]);
      InsertedInActive(c, Next(c, s, events[0]).value, events[1..]);
    }
  }

  lemma InsertInActive(c: Config, s: DispatchState, event: Event)
    requires Epoch(c, s) && Next(c, s, event).Some? && !event.Dispatch?
    ensures Next(c, s, event).value.active == s.active
    ensures forall k :: k in InsertedBy(s, event) ==> c.InSpace(s.active, k)
  {
    if event.Copy? {
      RunningIsLast(s, event.job);
    }
  }

  lemma {:induction false} InsertedJoin(c: Config, s: DispatchState, events: seq<Event>, job: nat)
    requires Trace(c, s, events + [Finish(job)]).Some?
    ensures Inserted(c, s, events + [Finish(job)]) == Inserted(c, s, events)
    decreases |events|
  {
    hide Next;
    if events == [] {
      assert events + [Finish(job)] == [Finish(job)] && [Finish(job)][1..] == [];
    } else {
      assert (events + [Finish(job)])[1..] == events[1..] + [Finish(job)];
      InsertedJoin(c, Next(c, s, events[0]).value, events[1..], job);
    }
  }

  lemma FlipSeparates(c: Config, s: DispatchState)
    requires Epoch(c, s) && Next(c, s, Dispatch).Some?
    ensures var s1 := Next(c, s, Dispatch).value; forall k :: k in s1.table ==> !c.InSpace(s1.active, k)
  {}

  lemma FinishIsReady(c: Config, s: DispatchState, job: nat)
    requires Epoch(c, s) && Next(c, s, Finish(job)).Some?
    ensures Ready(Next(c, s, Finish(job)).value.jobs)
  {
    RunningIsLast(s, job);
  }

  lemma ReadyInActive(c: Config, s: DispatchState)
    requires SpacesApart(c) && Epoch(c, s) && Ready(s.jobs)
    ensures forall k :: k in s.table ==> c.InSpace(s.active, k)
  {}

  lemma EpochOneInFlight(c: Config, s: DispatchState)
    requires Epoch(c, s)
    ensures OneInFlight(s)
  {}

  lemma {:induction false} DisciplinedSplit(c: Config, s: DispatchState, events: seq<Event>, more: seq<Event>)
    requires Disciplined(c, s, events + more) && Trace(c, s, events + more).Some?
    ensures Disciplined(c, s, events) && Trace(c, s, events).Some?
    ensures Disciplined(c, Trace(c, s, events).value, more)
    decreases |events|
  {
    hide Next;
    if events == [] {
      assert events + more == more;
    } else {
      assert (events + more)[1..] == events[1..] + more && (events + more)[0] == events[0];
      DisciplinedSplit(c, Next(c, s, events[0]).value, events[1..], more);
    }
  }

  // From the flip, at s, to the sweep.
  lemma FlipToSweep(c: Config, s: DispatchState, during: seq<Event>, job: nat)
    requires SpacesApart(c) && Epoch(c, s) && Next(c, s, Dispatch).Some? && s.pending == map[]
    requires var s1 := Next(c, s, Dispatch).value; var events := during + [Finish(job)];
      Disciplined(c, s1, events) && Trace(c, s1, events).Some?
    requires Dispatch !in during
    ensures var s1 := Next(c, s, Dispatch).value;
      Trace(c, s1, during + [Finish(job)]).value.table == Inserted(c, s1, during)
  {
    hide Next, Epoch, Disciplined, Inserted, Trace, OneInFlight, SpacesApart;
    var s1, events := Next(c, s, Dispatch).value, during + [Finish(job)];
    FlipSeparates(c, s);
    NextKeepsEpoch(c, s, Dispatch);
    EpochOneInFlight(c, s1);
    ActiveContents(c, s1, events);
    InsertedInActive(c, s1, events);
    InsertedJoin(c, s1, during, job);
    DisciplinedKeepsEpoch(c, s1, events);
    DisciplinedSplit(c, s1, during, [Finish(job)]);
    DisciplinedKeepsEpoch(c, s1, during);
    TraceSplit(c, s1, during, [Finish(job)]);
    OneEvent(c, Trace(c, s1, during).value, Finish(job));
    FinishIsReady(c, Trace(c, s1, during).value, job);
    ReadyInActive(c, Trace(c, s1, events).value);
  }

  lemma OneEvent(c: Config, s: DispatchState, event: Event)
    ensures Trace(c, s, [event]) == Next(c, s, event)
  {
    hide Next;
    assert [event][1..] == [];
  }

  // A collection of a disciplined run leaves exactly what was recorded or copied since its flip: all of
  // that, no original, and nothing of the collections before.
  lemma CollectionLeaves(c: Config, before: seq<Event>, during: seq<Event>, job: nat)
    requires SpacesApart(c) && Dispatch !in during
    requires var events := before + ([Dispatch] + (during + [Finish(job)]));
      Disciplined(c, Initially(), events) && Trace(c, Initially(), events).Some?
    ensures var s := Trace(c, Initially(), before + [Dispatch]);
      && s.Some?
      && Trace(c, Initially(), before + ([Dispatch] + (during + [Finish(job)]))).value.table
         == Inserted(c, s.value, during)
  {
    hide Next, Epoch, Inserted, Trace, SpacesApart, Disciplined;
    var rest := during + [Finish(job)];
    var s0 := Initially();
    TraceSplit(c, s0, before, [Dispatch] + rest);
    DisciplinedSplit(c, s0, before, [Dispatch] + rest);
    InitialEpoch(c);
    DisciplinedKeepsEpoch(c, s0, before);
    var s := Trace(c, s0, before).value;
    TraceSplit(c, s, [Dispatch], rest);
    DisciplinedSplit(c, s, [Dispatch], rest);
    OneEvent(c, s, Dispatch);
    NothingPending(c, s, rest);
    TraceJoin(c, s0, before, [Dispatch]);
    FlipToSweep(c, s, during, job);
  }

  lemma NothingPending(c: Config, s: DispatchState, rest: seq<Event>)
    requires Disciplined(c, s, [Dispatch] + rest)
    ensures s.pending == map[]
  {}

  // ---- Both hypotheses are needed ----

  // A reservation in one epoch, a whole collection, then the insert: the second flip finds an entry.
  function LateTrace(a: nat): seq<Event> {
    [ReserveFor(1, a), Dispatch, Finish(0), Record(1)]
  }

  lemma LateInsertBreaksAFlip(c: Config, a: nat)
    requires SpacesApart(c) && c.InSpace(Zero, a)
    ensures Trace(c, Initially(), LateTrace(a)).Some?
    ensures var s := Trace(c, Initially(), LateTrace(a)).value;
      Next(c, s, Dispatch).Some? && s.active == One && c.InSpace(Zero, a) && a in s.table && !FlipClean(c, s)
  {
    var s1 := Initially().(pending := map[1 := a]);
    var s2 := s1.(active := One, jobs := [Job(One, {}, false)]);
    var s3 := s2.(jobs := [Job(One, {}, true)]);
    var s4 := s3.(pending := map[], table := {a});
    FlipStep(c, s1);
    assert Swept(c, s2.jobs[0], s2.table) == {};
    assert s2.jobs[0 := Job(One, {}, true)] == s3.jobs;
    assert s3.pending - {1} == map[] && s3.table + {a} == {a};
    TraceFour(c, Initially(), s1, s2, s3, s4, LateTrace(a));
  }

  // An aborted collection leaves its originals where the next flip wants to copy.
  function AbortTrace(a: nat): seq<Event> {
    [ReserveFor(1, a), Record(1), Dispatch, Abort(0)]
  }

  lemma AbortBreaksAFlip(c: Config, a: nat)
    requires SpacesApart(c) && c.InSpace(Zero, a)
    ensures Trace(c, Initially(), AbortTrace(a)).Some?
    ensures var s := Trace(c, Initially(), AbortTrace(a)).value;
      Next(c, s, Dispatch).Some? && s.active == One && c.InSpace(Zero, a) && a in s.table && !FlipClean(c, s)
  {
    var s1 := Initially().(pending := map[1 := a]);
    var s2 := s1.(pending := map[], table := {a});
    var s3 := s2.(active := One, jobs := [Job(One, {}, false)]);
    var s4 := s3.(jobs := [Job(One, {}, true)]);
    assert s1.pending - {1} == map[] && s1.table + {a} == {a};
    FlipStep(c, s2);
    assert s3.jobs[0 := Job(One, {}, true)] == s4.jobs;
    TraceFour(c, Initially(), s1, s2, s3, s4, AbortTrace(a));
  }

  // An ordinary run: a is allocated, then a collection copies it to d while b is allocated.
  function OrdinaryTrace(a: nat, b: nat, d: nat): seq<Event> {
    [ReserveFor(1, a), Record(1), Dispatch, ReserveFor(2, b), Copy(0, d), Drop(0, a), Record(2), Finish(0)]
  }

  lemma OrdinaryRun(c: Config, a: nat, b: nat, d: nat)
    requires SpacesApart(c) && c.InSpace(Zero, a) && c.InSpace(One, b) && c.InSpace(One, d)
    ensures Trace(c, Initially(), OrdinaryTrace(a, b, d))
      == Some(DispatchState(One, {b, d}, map[], [Job(One, {a}, true)]))
  {
    var s2 := DispatchState(Zero, {a}, map[], []);
    var s3 := DispatchState(One, {a}, map[], [Job(One, {}, false)]);
    var s4 := s3.(pending := map[2 := b]);
    var s6 := DispatchState(One, {d}, map[2 := b], [Job(One, {a}, false)]);
    var s7 := DispatchState(One, {b, d}, map[], [Job(One, {a}, false)]);
    var s8 := DispatchState(One, {b, d}, map[], [Job(One, {a}, true)]);
    var events := OrdinaryTrace(a, b, d);
    FlipStep(c, s2);
    AllocatedAlone(c, a);
    assert Next(c, s3, events[3]) == Some(s4);
    var s5 := s4.(table := {a, d});
    assert s4.table + {d} == s5.table;
    assert Next(c, s4, events[4]) == Some(s5);
    assert {a, d} - {a} == {d} && s5.jobs[0 := Job(One, {a}, false)] == s6.jobs;
    assert Next(c, s5, events[5]) == Some(s6);
    assert map[2 := b] - {2} == map[] && {d} + {b} == {b, d};
    assert Next(c, s6, events[6]) == Some(s7);
    assert Swept(c, s7.jobs[0], s7.table) == s7.table && s7.jobs[0 := Job(One, {a}, true)] == s8.jobs;
    assert Next(c, s7, events[7]) == Some(s8);
    TraceFour(c, Initially(), Initially().(pending := map[1 := a]), s2, s3, s4, events[..4]);
    TraceFour(c, s4, s5, s6, s7, s8, events[4..]);
    TraceJoin(c, Initially(), events[..4], events[4..]);
    assert events[..4] + events[4..] == events;
  }

  lemma AllocatedAlone(c: Config, a: nat)
    requires c.InSpace(Zero, a)
    ensures var s1 := Initially().(pending := map[1 := a]);
      && Next(c, Initially(), ReserveFor(1, a)) == Some(s1)
      && Next(c, s1, Record(1)) == Some(DispatchState(Zero, {a}, map[], []))
  {
    var none: set<nat> := {};
    assert map[1 := a] - {1} == map[] && none + {a} == {a};
  }

  lemma FlipStep(c: Config, s: DispatchState)
    requires s.jobs == [] && s.active == Zero
    ensures Next(c, s, Dispatch) == Some(s.(active := One, jobs := [Job(One, {}, false)]))
  {
    assert [] + [Job(One, {}, false)] == [Job(One, {}, false)];
  }

  lemma TraceFour(
      c: Config, s0: DispatchState, s1: DispatchState, s2: DispatchState, s3: DispatchState, s4: DispatchState,
      e: seq<Event>)
    requires |e| == 4
    requires Next(c, s0, e[0]) == Some(s1) && Next(c, s1, e[1]) == Some(s2)
    requires Next(c, s2, e[2]) == Some(s3) && Next(c, s3, e[3]) == Some(s4)
    ensures Trace(c, s0, e) == Some(s4)
  {
    hide Next;
    assert e[1..][1..] == e[2..] && e[2..][1..] == e[3..] && e[3..][1..] == [];
    assert Trace(c, s3, e[3..]) == Some(s4);
    assert Trace(c, s2, e[2..]) == Some(s4);
  }
}
