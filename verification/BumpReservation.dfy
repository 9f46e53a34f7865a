/**
 The lock-free bump allocator: any number of threads inside reserve_space of one space,
 interleaving their loads, padding computations and exchanges on the shared index.
 One epoch: nobody resets the index.
 */
module BumpReservation {
  import opened Bits
  import opened FatPtrs
  import opened Heaps
  import opened Ledgers

  datatype Request = Request(size: nat, alignment: nat, limit: nat)

  // A thread outside the function, about to compute the padding, or about to exchange.
  // `mark` is history: how many calls had completed when `next` was read.
  datatype Local =
    | Outside
    | Read(request: Request, next: nat, mark: nat)
    | Padded(request: Request, next: nat, padding: nat, mark: nat)

  // `completed` is history: the calls that returned, in order.
  datatype Completion = Completion(tid: nat, request: Request, outcome: Option<nat>)
  datatype BumpState = BumpState(next: nat, threads: map<nat, Local>, completed: seq<Completion>) {
    function At(tid: nat): Local {
      if tid in threads then threads[tid] else Outside
    }
  }

  datatype BumpStep = Call(request: Request) | Pad | Exchange

  // One step of one thread, if it can be taken. A failed exchange reads the index afresh.
  function Take(base: nat, s: BumpState, tid: nat, step: BumpStep): Option<BumpState> {
    match s.At(tid)
    case Outside =>
      if step.Call? && IsPow2(step.request.alignment) then
        Some(s.(threads := s.threads[tid := Read(step.request, s.next, |s.completed|)]))
      else None
    case Read(request, next, mark) =>
      if !step.Pad? then None
      else
        var p := Padding(base + next, request.alignment);
        if next + request.size + p > request.limit then
          Some(s.(threads := s.threads[tid := Outside], completed := s.completed + [Completion(tid, request, None)]))
        else Some(s.(threads := s.threads[tid := Padded(request, next, p, mark)]))
    case Padded(request, next, p, mark) =>
      if !step.Exchange? then None
      else if s.next == next then
        Some(BumpState(next + request.size + p, s.threads[tid := Outside],
                       s.completed + [Completion(tid, request, Some(next + p))]))
      else Some(s.(threads := s.threads[tid := Read(request, s.next, |s.completed|)]))
  }

  function Interleave(base: nat, steps: seq<(nat, BumpStep)>): Option<BumpState>
    decreases |steps|
  {
    if steps == [] then Some(BumpState(0, map[], []))
    else
      match Interleave(base, steps[..|steps| - 1])
      case None => None
      case Some(s) => Take(base, s, steps[|steps| - 1].0, steps[|steps| - 1].1)
  }

  // ---- The sequential reading of a history ----

  // The bump index once the calls have completed.
  function After(completed: seq<Completion>): nat
    decreases |completed|
  {
    if completed == [] then 0
    else
      match completed[|completed| - 1].outcome
      case None => After(completed[..|completed| - 1])
      case Some(index) => index + completed[|completed| - 1].request.size
  }

  // What a call running alone would return.
  function Alone(base: nat, next: nat, request: Request): Option<nat> {
    Reserve(base, next, request.size, request.alignment, request.limit)
  }

  // Each call returned what it would have returned running alone after the ones before it.
  ghost predicate Sequential(base: nat, completed: seq<Completion>)
    decreases |completed|
  {
    completed != [] ==>
      var front, last := completed[..|completed| - 1], completed[|completed| - 1];
      && Sequential(base, front)
      && IsPow2(last.request.alignment)
      && last.outcome == Alone(base, After(front), last.request)
  }

  // ---- Every interleaving has a sequential reading ----

  // What a thread read was the index after some prefix of the history.
  ghost predicate LocalSound(base: nat, s: BumpState, local: Local) {
    match local
    case Outside => true
    case Read(request, next, mark) =>
      IsPow2(request.alignment) && mark <= |s.completed| && next == After(s.completed[..mark])
    case Padded(request, next, p, mark) =>
      && IsPow2(request.alignment) && mark <= |s.completed| && next == After(s.completed[..mark])
      && p == Padding(base + next, request.alignment) && next + request.size + p <= request.limit
  }

  ghost predicate BumpInvariant(base: nat, s: BumpState) {
    && s.next == After(s.completed) && Sequential(base, s.completed)
    && forall tid: nat :: LocalSound(base, s, s.At(tid))
  }

  lemma GrowsByOne(completed: seq<Completion>, c: Completion)
    ensures (completed + [c])[..|completed|] == completed
    ensures After(completed + [c]) == if c.outcome.None? then After(completed) else c.outcome.value + c.request.size
  {
    assert (completed + [c])[..|completed|] == completed;
  }

  // The index never goes back.
  lemma {:induction false} AfterMonotone(base: nat, completed: seq<Completion>, mark: nat)
    requires Sequential(base, completed) && mark <= |completed|
    ensures After(completed[..mark]) <= After(completed)
    decreases |completed|
  {
    hide IsPow2, Padding;
    if mark == |completed| {
      assert completed[..mark] == completed;
    } else {
      var front := completed[..|completed| - 1];
      assert front[..mark] == completed[..mark];
      AfterMonotone(base, front, mark);
    }
  }

  // Padding up is monotone, so a request refused at an old index would be refused at the current one.
  lemma RefusedLater(base: nat, n0: nat, n1: nat, alignment: nat)
    requires n0 <= n1 && alignment > 0
    ensures n0 + Padding(base + n0, alignment) <= n1 + Padding(base + n1, alignment)
  {
    hide Padding;
    PaddingAligns(base + n1, alignment);
    PaddingLeast(base + n0, alignment, n1 + Padding(base + n1, alignment) - n0);
  }

  // One step either completes no call and leaves the index alone, or completes one call with the
  // result, and the index, that the call has when it runs alone at that moment.
  ghost predicate Atomic(base: nat, s: BumpState, s1: BumpState, tid: nat, request: Request) {
    var r := Alone(base, s.next, request);
    && s1.completed == s.completed + [Completion(tid, request, r)]
    && s1.next == if r.Some? then r.value + request.size else s.next
  }

  ghost predicate Invisible(s: BumpState, s1: BumpState) {
    s1.completed == s.completed && s1.next == s.next
  }

  lemma StepIsAtomic(base: nat, s: BumpState, tid: nat, step: BumpStep)
    requires BumpInvariant(base, s) && Take(base, s, tid, step).Some?
    ensures var s1 := Take(base, s, tid, step).value;
      Invisible(s, s1) || (!s.At(tid).Outside? && IsPow2(s.At(tid).request.alignment)
        && Atomic(base, s, s1, tid, s.At(tid).request))
  {
    hide IsPow2, Padding, Sequential, After;
    assert LocalSound(base, s, s.At(tid));
    if s.At(tid).Read? {
      var request, next, mark := s.At(tid).request, s.At(tid).next, s.At(tid).mark;
      AfterMonotone(base, s.completed, mark);
      Pow2AtMost256(request.alignment);
      RefusedLater(base, next, s.next, request.alignment);
    }
  }

  lemma TakeKeeps(base: nat, s: BumpState, tid: nat, step: BumpStep)
    requires BumpInvariant(base, s) && Take(base, s, tid, step).Some?
    ensures BumpInvariant(base, Take(base, s, tid, step).value)
  {
    hide IsPow2, Padding, LocalSound;
    var s1 := Take(base, s, tid, step).value;
    StepIsAtomic(base, s, tid, step);
    if s1.completed != s.completed {
      GrowsByOne(s.completed, s1.completed[|s.completed|]);
    }
    forall id: nat
      ensures LocalSound(base, s1, s1.At(id))
    {
      LocalsStay(base, s, tid, step, id);
    }
  }

  lemma LocalsStay(base: nat, s: BumpState, tid: nat, step: BumpStep, id: nat)
    requires BumpInvariant(base, s) && Take(base, s, tid, step).Some?
    ensures var s1 := Take(base, s, tid, step).value; LocalSound(base, s1, s1.At(id))
  {
    hide IsPow2, Padding, After, Sequential;
    var s1 := Take(base, s, tid, step).value;
    assert LocalSound(base, s, s.At(id));
    assert s1.completed[..|s.completed|] == s.completed;
    assert s.completed[..|s.completed|] == s.completed;
    if !s1.At(id).Outside? && s1.At(id).mark <= |s.completed| {
      assert s1.completed[..s1.At(id).mark] == s.completed[..s1.At(id).mark];
    }
  }

  // Linearizability: in every interleaving the calls return what they return one at a time, in the
  // order they complete, and the shared index is the sequential one.
  lemma {:induction false} InterleavingIsSequential(base: nat, steps: seq<(nat, BumpStep)>)
    requires Interleave(base, steps).Some?
    ensures BumpInvariant(base, Interleave(base, steps).value)
    decreases |steps|
  {
    hide BumpInvariant, Take;
    if steps == [] {
      assert BumpInvariant(base, BumpState(0, map[], [])) by { NothingYet(base); }
    } else {
      InterleavingIsSequential(base, steps[..|steps| - 1]);
      TakeKeeps(base, Interleave(base, steps[..|steps| - 1]).value, steps[|steps| - 1].0, steps[|steps| - 1].1);
    }
  }

  lemma NothingYet(base: nat)
    ensures BumpInvariant(base, BumpState(0, map[], []))
  {}

  // ---- Reserved intervals ----

  function Granted(completed: seq<Completion>, i: nat): Option<nat>
    requires i < |completed|
  {
    completed[i].outcome
  }

  // Sizes and paddings of everything granted.
  function Bytes(base: nat, completed: seq<Completion>): nat
    decreases |completed|
  {
    if completed == [] then 0
    else
      var front, last := completed[..|completed| - 1], completed[|completed| - 1];
      Bytes(base, front) +
      if last.outcome.None? then 0 else last.request.size + Padding(base + After(front), last.request.alignment)
  }

  // Nothing is lost or handed out twice: the granted sizes and paddings sum to the index.
  lemma {:induction false} BytesAreTheIndex(base: nat, completed: seq<Completion>)
    requires Sequential(base, completed)
    ensures Bytes(base, completed) == After(completed)
    decreases |completed|
  {
    hide IsPow2, Padding;
    if completed != [] {
      BytesAreTheIndex(base, completed[..|completed| - 1]);
    }
  }

  // A grant lies, aligned, between the index before it and its caller's limit.
  lemma {:induction false} GrantPlaced(base: nat, completed: seq<Completion>, i: nat)
    requires Sequential(base, completed) && i < |completed| && Granted(completed, i).Some?
    ensures var index := Granted(completed, i).value; var r := completed[i].request;
      && After(completed[..i]) <= index && index + r.size <= r.limit
      && index + r.size <= After(completed)
      && AlignedTo(base + index, r.alignment)
      && index - After(completed[..i]) < r.alignment
    decreases |completed|
  {
    hide IsPow2, Padding, AlignedTo;
    var front := completed[..|completed| - 1];
    if i == |completed| - 1 {
      Pow2AtMost256(completed[i].request.alignment);
      PaddingAligns(base + After(front), completed[i].request.alignment);
    } else {
      GrantPlaced(base, front, i);
      assert front[..i] == completed[..i];
    }
  }

  // Two grants never overlap: the later one starts at or above the end of the earlier one.
  lemma GrantsApart(base: nat, completed: seq<Completion>, i: nat, j: nat)
    requires Sequential(base, completed) && i < j < |completed|
    requires Granted(completed, i).Some? && Granted(completed, j).Some?
    ensures Granted(completed, i).value + completed[i].request.size <= Granted(completed, j).value
  {
    hide IsPow2, Padding, AlignedTo, After;
    GrantPlaced(base, completed, j);
    PrefixSequential(base, completed, j);
    GrantPlaced(base, completed[..j], i);
  }

  lemma {:induction false} PrefixSequential(base: nat, completed: seq<Completion>, n: nat)
    requires Sequential(base, completed) && n <= |completed|
    ensures Sequential(base, completed[..n])
    decreases |completed|
  {
    hide IsPow2, Padding, After;
    if n == |completed| {
      assert completed[..n] == completed;
    } else {
      PrefixSequential(base, completed[..|completed| - 1], n);
      assert completed[..|completed| - 1][..n] == completed[..n];
    }
  }

  // ---- What the callers asked for ----

  // The requests of a thread's calls, in order.
  function Calls(steps: seq<(nat, BumpStep)>, tid: nat): seq<Request>
    decreases |steps|
  {
    if steps == [] then []
    else
      var (id, step) := steps[|steps| - 1];
      Calls(steps[..|steps| - 1], tid) + if id == tid && step.Call? then [step.request] else []
  }

  // The requests of a thread's completions, in order.
  function Answered(completed: seq<Completion>, tid: nat): seq<Request>
    decreases |completed|
  {
    if completed == [] then []
    else
      var last := completed[|completed| - 1];
      Answered(completed[..|completed| - 1], tid) + if last.tid == tid then [last.request] else []
  }

  function InProgress(local: Local): seq<Request> {
    if local.Outside? then [] else [local.request]
  }

  lemma TakeAnswers(base: nat, s: BumpState, id: nat, step: BumpStep, tid: nat)
    requires Take(base, s, id, step).Some?
    ensures var s1 := Take(base, s, id, step).value;
      Answered(s1.completed, tid) + InProgress(s1.At(tid)) ==
      Answered(s.completed, tid) + InProgress(s.At(tid)) +
      if id == tid && step.Call? then [step.request] else []
  {
    hide IsPow2, Padding, Answered;
    var s1 := Take(base, s, id, step).value;
    if s1.completed != s.completed {
      AnsweredGrows(s.completed, s1.completed[|s.completed|], tid);
    }
  }

  lemma AnsweredGrows(completed: seq<Completion>, last: Completion, tid: nat)
    ensures Answered(completed + [last], tid)
      == Answered(completed, tid) + if last.tid == tid then [last.request] else []
  {
    assert (completed + [last])[..|completed|] == completed;
  }

  // Every call is answered once, in the order its thread made it, with the request it was made with: the
  // requests a thread's completions carry, and after them the one it is inside with, are those it called with.
  lemma {:induction false} EveryCallAnswered(base: nat, steps: seq<(nat, BumpStep)>, tid: nat)
    requires Interleave(base, steps).Some?
    ensures var s := Interleave(base, steps).value;
      Answered(s.completed, tid) + InProgress(s.At(tid)) == Calls(steps, tid)
    decreases |steps|
  {
    hide Take, InProgress, Answered;
    if steps == [] {
      assert Answered([], tid) + InProgress(Outside) == [] by { NothingAnswered(tid); }
    } else {
      var front, last := steps[..|steps| - 1], steps[|steps| - 1];
      EveryCallAnswered(base, front, tid);
      TakeAnswers(base, Interleave(base, front).value, last.0, last.1, tid);
    }
  }

  lemma NothingAnswered(tid: nat)
    ensures Answered([], tid) + InProgress(Outside) == []
  {}

  // The i-th completion answers its thread's call next in turn.
  ghost predicate AnswersTheCall(steps: seq<(nat, BumpStep)>, completed: seq<Completion>, i: nat)
    requires i < |completed|
  {
    var tid := completed[i].tid;
    var turn := |Answered(completed[..i], tid)|;
    turn < |Calls(steps, tid)| && completed[i].request == Calls(steps, tid)[turn]
  }

  lemma {:induction false} AnsweredAt(completed: seq<Completion>, i: nat)
    requires i < |completed|
    ensures var tid := completed[i].tid; var turn := |Answered(completed[..i], tid)|;
      turn < |Answered(completed, tid)| && Answered(completed, tid)[turn] == completed[i].request
    decreases |completed|
  {
    var front := completed[..|completed| - 1];
    if i < |front| {
      AnsweredAt(front, i);
      assert front[..i] == completed[..i];
    }
  }

  // In every interleaving, counted with the sizes and alignments the threads called with: each completion
  // is what its call returns when it runs alone after the earlier ones, the bytes granted and padded sum to
  // the shared index, and no two grants overlap.
  lemma CallsServed(base: nat, steps: seq<(nat, BumpStep)>)
    requires Interleave(base, steps).Some?
    ensures var s := Interleave(base, steps).value;
      && (forall i :: 0 <= i < |s.completed| ==> AnswersTheCall(steps, s.completed, i))
      && Sequential(base, s.completed)
      && s.next == After(s.completed) == Bytes(base, s.completed)
      && (forall i, j ::
           0 <= i < j < |s.completed| && Granted(s.completed, i).Some? && Granted(s.completed, j).Some? ==>
           Granted(s.completed, i).value + s.completed[i].request.size <= Granted(s.completed, j).value)
  {
    hide Take, Sequential, After, Bytes, Answered, Calls, Interleave;
    var s := Interleave(base, steps).value;
    InterleavingIsSequential(base, steps);
    BytesAreTheIndex(base, s.completed);
    forall i: nat | i < |s.completed|
      ensures AnswersTheCall(steps, s.completed, i)
    {
      EveryCallAnswered(base, steps, s.completed[i].tid);
      AnsweredAt(s.completed, i);
    }
    forall i: nat, j: nat | i < j < |s.completed| && Granted(s.completed, i).Some? && Granted(s.completed, j).Some?
      ensures Granted(s.completed, i).value + s.completed[i].request.size <= Granted(s.completed, j).value
    {
      GrantsApart(base, s.completed, i, j);
    }
  }

  // A call nobody disturbs returns after one attempt, whatever the others have done before it: the index
  // reserve_space returns when it runs alone, or nothing where that is over the limit.
  lemma UndisturbedCall(base: nat, s: BumpState, tid: nat, request: Request)
    requires s.At(tid).Outside? && IsPow2(request.alignment)
    ensures Take(base, s, tid, Call(request)).Some?
    ensures var p := Padding(base + s.next, request.alignment); var s1 := Take(base, s, tid, Call(request)).value;
      && Take(base, s1, tid, Pad).Some?
      && var s2 := Take(base, s1, tid, Pad).value;
        if s.next + request.size + p > request.limit then
          s2 == BumpState(s.next, s.threads[tid := Outside], s.completed + [Completion(tid, request, None)])
        else
          Take(base, s2, tid, Exchange) ==
          Some(BumpState(s.next + p + request.size, s.threads[tid := Outside],
                         s.completed + [Completion(tid, request, Some(s.next + p))]))
  {
    hide IsPow2, Padding;
    var s1 := Take(base, s, tid, Call(request)).value;
    assert s1.threads[tid := Outside] == s.threads[tid := Outside];
    var s2 := Take(base, s1, tid, Pad).value;
    assert s2.threads[tid := Outside] == s.threads[tid := Outside];
  }

  // ---- Lock freedom ----

  // Bytes handed out since a prefix of the history.
  function Since(completed: seq<Completion>, mark: nat): int
    requires mark <= |completed|
  {
    After(completed) - After(completed[..mark])
  }

  // An exchange fails exactly when bytes were granted since the thread read the index, so every
  // failed attempt is another call's progress; and a stale index is never mistaken for a fresh one.
  lemma ExchangeFailsIff(base: nat, s: BumpState, tid: nat)
    requires BumpInvariant(base, s) && s.At(tid).Padded?
    ensures var s1 := Take(base, s, tid, Exchange).value; var mark := s.At(tid).mark;
      && mark <= |s.completed|
      && (s1.completed == s.completed <==> Since(s.completed, mark) > 0)
      && (s1.completed == s.completed ==> exists i :: mark <= i < |s.completed| && Granted(s.completed, i).Some?)
  {
    hide IsPow2, Padding, Sequential, After;
    assert LocalSound(base, s, s.At(tid));
    AfterMonotone(base, s.completed, s.At(tid).mark);
    if s.next != s.At(tid).next {
      SomeoneWasGranted(s.completed, s.At(tid).mark);
    }
  }

  lemma {:induction false} SomeoneWasGranted(completed: seq<Completion>, mark: nat)
    requires mark <= |completed| && After(completed) != After(completed[..mark])
    ensures exists i :: mark <= i < |completed| && Granted(completed, i).Some?
    decreases |completed|
  {
    assert completed[..|completed|] == completed;
    var front := completed[..|completed| - 1];
    if completed[|completed| - 1].outcome.Some? {
      assert Granted(completed, |completed| - 1).Some?;
    } else {
      assert front[..mark] == completed[..mark];
      SomeoneWasGranted(front, mark);
      var i :| mark <= i < |front| && Granted(front, i).Some?;
      assert Granted(completed, i).Some?;
    }
  }
}
