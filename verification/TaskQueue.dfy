/**
 The worker queue of include/task.inl: any number of pushing threads, one worker, a
 mutex, and a condition variable with spurious wakeups. Each lock, unlock, wait, notify
 and queue operation is one step.
 */
module TaskQueue {
  import opened FatPtrs

  // A queued task, or the shell std::move leaves behind.
  datatype Entry = Pending(id: nat) | MovedFrom

  datatype Owner = Free | ByWorker | ByPusher(i: nat)

  // push_work
  datatype Pusher =
    | Outside
    | Wants(id: nat)
    | Holding(id: nat)     // has the lock, about to emplace
    | Pushed               // has the lock, about to leave the block
    | ToNotify             // has released the lock, about to notify

  // do_work
  datatype Worker =
    | Top                  // about to test the stop token
    | WantsLock
    | Testing              // has the lock, about to test the queue
    | Waiting              // blocked in wait, lock released
    | Waking               // woken, about to take the lock back
    | Woken                // has the lock, about to test the stop token
    | Moved(id: nat)       // has the lock and the task
    | Running(id: nat)     // runs the task without the lock
    | Ran                  // about to take the lock back
    | Popping              // has the lock, about to pop
    | Popped               // has the lock, at the end of the loop body
    | Exited
    | Broken               // has invoked a moved-from task

  // `pushed` and `finished` are history: tasks in the order of emplace, tasks in the order of completion.
  datatype TaskState = TaskState(owner: Owner, queue: seq<Entry>, worker: Worker, pushers: seq<Pusher>, stop: bool,
                                 pushed: seq<nat>, finished: seq<nat>)

  datatype Step = Call(i: nat, id: nat) | Push(i: nat) | Work | Spurious | RequestStop | NotifyAll

  function Take(s: TaskState, step: Step): Option<TaskState> {
    match step
    case Call(i, id) =>
      if i < |s.pushers| && s.pushers[i].Outside? then Some(s.(pushers := s.pushers[i := Wants(id)])) else None
    case Push(i) => if i < |s.pushers| then TakePush(s, i) else None
    case Work => TakeWork(s)
    case Spurious => if s.worker.Waiting? then Some(s.(worker := Waking)) else None
    case RequestStop => Some(s.(stop := true))
    case NotifyAll => Some(s.(worker := Notified(s.worker)))
  }

  // notify_one reaches the worker only if it is waiting.
  function Notified(w: Worker): Worker {
    if w.Waiting? then Waking else w
  }

  function TakePush(s: TaskState, i: nat): Option<TaskState>
    requires i < |s.pushers|
  {
    match s.pushers[i]
    case Outside => None
    case Wants(id) =>
      if s.owner.Free? then Some(s.(owner := ByPusher(i), pushers := s.pushers[i := Holding(id)])) else None
    case Holding(id) =>
      Some(s.(queue := s.queue + [Pending(id)], pushed := s.pushed + [id], pushers := s.pushers[i := Pushed]))
    case Pushed => Some(s.(owner := Free, pushers := s.pushers[i := ToNotify]))
    case ToNotify => Some(s.(worker := Notified(s.worker), pushers := s.pushers[i := Outside]))
  }

  function TakeWork(s: TaskState): Option<TaskState> {
    match s.worker
    case Top => Some(s.(worker := if s.stop then Exited else WantsLock))
    case WantsLock => if s.owner.Free? then Some(s.(owner := ByWorker, worker := Testing)) else None
    case Testing =>
      if s.queue == [] then Some(s.(owner := Free, worker := Waiting))
      else if s.queue[0].Pending? then Some(s.(queue := [MovedFrom] + s.queue[1..], worker := Moved(s.queue[0].id)))
      else Some(s.(worker := Broken))
    case Waiting => None
    case Waking => if s.owner.Free? then Some(s.(owner := ByWorker, worker := Woken)) else None
    case Woken => if s.stop then Some(s.(owner := Free, worker := Exited)) else Some(s.(worker := Testing))
    case Moved(id) => Some(s.(owner := Free, worker := Running(id)))
    case Running(id) => Some(s.(worker := Ran, finished := s.finished + [id]))
    case Ran => if s.owner.Free? then Some(s.(owner := ByWorker, worker := Popping)) else None
    case Popping => Some(s.(queue := if s.queue == [] then [] else s.queue[1..], worker := Popped))
    case Popped => Some(s.(owner := Free, worker := Top))
    case Exited => None
    case Broken => None
  }

  function Trace(s: TaskState, steps: seq<Step>): Option<TaskState>
    decreases |steps|
  {
    if steps == [] then Some(s)
    else
      match Take(s, steps[0])
      case None => None
      case Some(s1) => Trace(s1, steps[1..])
  }

  // n threads that may push, and a worker that has just started.
  function Initially(n: nat): TaskState {
    TaskState(Free, [], Top, seq(n, i => Outside), false, [], [])
  }

  // ---- The invariant ----

  function Ids(queue: seq<Entry>): seq<nat>
    decreases |queue|
  {
    if queue == [] then []
    else (if queue[0].Pending? then [queue[0].id] else []) + Ids(queue[1..])
  }

  // The task the worker has taken out and not yet finished.
  function InHand(w: Worker): seq<nat> {
    if w.Moved? || w.Running? then [w.id] else []
  }

  predicate WorkerHolds(w: Worker) {
    w.Testing? || w.Woken? || w.Moved? || w.Popping? || w.Popped?
  }

  predicate PusherHolds(p: Pusher) {
    p.Holding? || p.Pushed?
  }

  // Between the move and the pop.
  predicate FrontTaken(w: Worker) {
    w.Moved? || w.Running? || w.Ran? || w.Popping?
  }

  ghost predicate MutualExclusion(s: TaskState) {
    && (s.owner.ByWorker? <==> WorkerHolds(s.worker))
    && (s.owner.ByPusher? ==> s.owner.i < |s.pushers|)
    && (forall i: nat {:trigger s.pushers[i]} :: i < |s.pushers| ==>
         (s.owner == ByPusher(i) <==> PusherHolds(s.pushers[i])))
  }

  // Exactly between the move and the pop the front is a moved-from task; no other entry ever is.
  ghost predicate FrontShape(s: TaskState) {
    && (FrontTaken(s.worker) ==> s.queue != [] && s.queue[0].MovedFrom?)
    && (forall k :: 0 <= k < |s.queue| && (k > 0 || !FrontTaken(s.worker)) ==> s.queue[k].Pending?)
  }

  ghost predicate Conserved(s: TaskState) {
    s.pushed == s.finished + InHand(s.worker) + Ids(s.queue)
  }

  ghost predicate AboutToNotify(s: TaskState, i: nat) {
    i < |s.pushers| && (s.pushers[i].Pushed? || s.pushers[i].ToNotify?)
  }

  ghost predicate NoLostWakeup(s: TaskState) {
    s.worker.Waiting? && s.queue != [] ==> exists i: nat :: AboutToNotify(s, i)
  }

  ghost predicate TaskInvariant(s: TaskState) {
    && MutualExclusion(s) && FrontShape(s) && Conserved(s) && NoLostWakeup(s)
    && !s.worker.Broken? && (s.worker.Exited? ==> s.stop)
  }

  lemma IdsEmpty()
    ensures Ids([]) == []
  {}

  lemma {:induction false} IdsFront(queue: seq<Entry>)
    requires queue != []
    ensures Ids(queue) == (if queue[0].Pending? then [queue[0].id] else []) + Ids(queue[1..])
  {}

  lemma {:induction false} IdsAppend(queue: seq<Entry>, id: nat)
    ensures Ids(queue + [Pending(id)]) == Ids(queue) + [id]
    decreases |queue|
  {
    hide Ids;
    var longer := queue + [Pending(id)];
    IdsEmpty();
    if queue == [] {
      assert longer == [Pending(id)] && longer[1..] == [];
      IdsFront(longer);
    } else {
      var rest := queue[1..];
      IdsAppend(rest, id);
      assert longer[1..] == rest + [Pending(id)] && longer[0] == queue[0];
      IdsFront(longer);
      IdsFront(queue);
    }
  }

  lemma ExclusionKept(s: TaskState, step: Step)
    requires TaskInvariant(s) && Take(s, step).Some?
    ensures MutualExclusion(Take(s, step).value)
  {
    hide Ids, NoLostWakeup, Conserved;
    var s1 := Take(s, step).value;
    if step.Push? {
      assert s.owner == ByPusher(step.i) <==> PusherHolds(s.pushers[step.i]);
    }
    forall i: nat | i < |s1.pushers|
      ensures s1.owner == ByPusher(i) <==> PusherHolds(s1.pushers[i])
    {
      assert s.owner == ByPusher(i) <==> PusherHolds(s.pushers[i]);
    }
  }

  lemma ShapeKept(s: TaskState, step: Step)
    requires TaskInvariant(s) && Take(s, step).Some?
    ensures var s1 := Take(s, step).value; FrontShape(s1) && !s1.worker.Broken? && (s1.worker.Exited? ==> s1.stop)
  {
    hide Ids, NoLostWakeup, MutualExclusion, Conserved;
  }

  lemma ConservedKept(s: TaskState, step: Step)
    requires TaskInvariant(s) && Take(s, step).Some?
    ensures Conserved(Take(s, step).value)
  {
    hide NoLostWakeup, MutualExclusion, FrontShape, Ids, TakeWork;
    if step.Push? && s.pushers[step.i].Holding? {
      IdsAppend(s.queue, s.pushers[step.i].id);
    } else if step.Work? {
      WorkConserves(s);
    }
  }

  lemma WorkConserves(s: TaskState)
    requires FrontShape(s) && Conserved(s) && TakeWork(s).Some?
    ensures Conserved(TakeWork(s).value)
  {
    hide Ids;
    IdsEmpty();
    if s.queue != [] {
      IdsFront(s.queue);
      var shell := [MovedFrom] + s.queue[1..];
      IdsFront(shell);
      assert shell[1..] == s.queue[1..];
    }
  }

  lemma WakeupKept(s: TaskState, step: Step)
    requires TaskInvariant(s) && Take(s, step).Some?
    ensures NoLostWakeup(Take(s, step).value)
  {
    hide MutualExclusion, FrontShape, Ids;
    var s1 := Take(s, step).value;
    if s1.worker.Waiting? && s1.queue != [] {
      if step.Push? && s.pushers[step.i].Holding? {
        assert AboutToNotify(s1, step.i);
      } else {
        var i: nat :| AboutToNotify(s, i);
        assert AboutToNotify(s1, i);
      }
    }
  }

  // Mutual exclusion, conservation, the moved-from front and the absence of lost wakeups in every
  // state of every run.
  lemma {:induction false} EveryRun(s: TaskState, steps: seq<Step>)
    requires TaskInvariant(s) && Trace(s, steps).Some?
    ensures TaskInvariant(Trace(s, steps).value)
    decreases |steps|
  {
    hide TaskInvariant, Take, MutualExclusion, FrontShape, Conserved, NoLostWakeup;
    if steps != [] {
      var s1 := Take(s, steps[0]).value;
      StepKeeps(s, steps[0]);
      EveryRun(s1, steps[1..]);
    }
  }

  lemma StepKeeps(s: TaskState, step: Step)
    requires TaskInvariant(s) && Take(s, step).Some?
    ensures TaskInvariant(Take(s, step).value)
  {
    hide Take, MutualExclusion, FrontShape, Conserved, NoLostWakeup;
    ExclusionKept(s, step);
    ShapeKept(s, step);
    ConservedKept(s, step);
    WakeupKept(s, step);
  }

  lemma StartsSound(n: nat)
    ensures TaskInvariant(Initially(n))
  {}

  // Tasks complete in the order they were pushed, each once, and exactly the pushed ones.
  lemma FirstInFirstOut(n: nat, steps: seq<Step>)
    requires Trace(Initially(n), steps).Some?
    ensures var s := Trace(Initially(n), steps).value;
      && s.finished <= s.pushed
      && s.pushed == s.finished + InHand(s.worker) + Ids(s.queue)
      && (s.queue == [] ==> s.finished == s.pushed)
      && !s.worker.Broken?
  {
    hide Take, MutualExclusion, NoLostWakeup;
    StartsSound(n);
    EveryRun(Initially(n), steps);
  }

  // has_work, which reads the queue under the lock, is false exactly when everything pushed is
  // finished and popped.
  lemma HasWorkMeans(s: TaskState)
    requires TaskInvariant(s)
    ensures s.queue == [] <==> s.finished == s.pushed && !FrontTaken(s.worker)
  {
    hide NoLostWakeup, MutualExclusion, Ids;
    IdsEmpty();
    if s.queue != [] {
      IdsFront(s.queue);
    }
  }

  // ---- All pushed work gets done ----

  // Steps a scheduler may have to take: no new call, no spurious wakeup, no stop request.
  predicate Quiet(step: Step) {
    step.Push? || step.Work?
  }

  // While work is left and nobody asked to stop, some thread can take a step.
  lemma NoDeadlock(s: TaskState)
    requires TaskInvariant(s) && !s.stop
    ensures (s.finished == s.pushed && s.queue == [] && s.worker.Waiting?)
      || (exists step :: Quiet(step) && Take(s, step).Some?)
  {
    hide Conserved, FrontShape;
    if Take(s, Work).Some? {
      assert Quiet(Work);
    } else if s.worker.Waiting? {
      if s.queue != [] {
        var i: nat :| AboutToNotify(s, i);
        assert Quiet(Push(i)) && Take(s, Push(i)).Some?;
      } else {
        NothingLeft(s);
      }
    } else {
      assert s.owner.ByPusher?;
      HolderMoves(s);
    }
  }

  lemma NothingLeft(s: TaskState)
    requires Conserved(s) && s.queue == [] && s.worker.Waiting?
    ensures s.finished == s.pushed
  {}

  lemma HolderMoves(s: TaskState)
    requires s.owner.ByPusher? && s.owner.i < |s.pushers| && PusherHolds(s.pushers[s.owner.i])
    ensures Quiet(Push(s.owner.i)) && Take(s, Push(s.owner.i)).Some?
  {}

  function WorkerRank(w: Worker): nat {
    match w
    case Waiting => 0
    case Testing => 1
    case WantsLock => 2
    case Woken => 2
    case Top => 3
    case Waking => 3
    case Popped => 4
    case Popping => 5
    case Ran => 6
    case Running(_) => 7
    case Moved(_) => 8
    case Exited => 0
    case Broken => 0
  }

  function PusherRank(p: Pusher): nat {
    match p
    case Outside => 0
    case ToNotify => 4
    case Pushed => 5
    case Holding(_) => 26
    case Wants(_) => 27
  }

  function Ranks(pushers: seq<Pusher>): nat
    decreases |pushers|
  {
    if pushers == [] then 0 else PusherRank(pushers[0]) + Ranks(pushers[1..])
  }

  // How many quiet steps can still follow.
  function Left(s: TaskState): nat {
    WorkerRank(s.worker) + 20 * |Ids(s.queue)| + Ranks(s.pushers)
  }

  lemma {:induction false} RanksUpdate(pushers: seq<Pusher>, i: nat, p: Pusher)
    requires i < |pushers|
    ensures Ranks(pushers[i := p]) == Ranks(pushers) - PusherRank(pushers[i]) + PusherRank(p)
    decreases |pushers|
  {
    hide PusherRank;
    var updated := pushers[i := p];
    if i == 0 {
      assert updated[1..] == pushers[1..];
    } else {
      assert updated[1..] == pushers[1..][i - 1 := p];
      RanksUpdate(pushers[1..], i - 1, p);
    }
  }

  lemma QuietWorkShrinks(s: TaskState)
    requires TaskInvariant(s) && TakeWork(s).Some?
    ensures Left(TakeWork(s).value) < Left(s)
  {
    hide Ranks, MutualExclusion, NoLostWakeup, Conserved;
    if s.worker.Testing? && s.queue != [] {
      assert ([MovedFrom] + s.queue[1..])[1..] == s.queue[1..];
    }
  }

  lemma QuietPushShrinks(s: TaskState, i: nat)
    requires i < |s.pushers| && TakePush(s, i).Some?
    ensures Left(TakePush(s, i).value) < Left(s)
  {
    hide Ids, Ranks;
    var s1 := TakePush(s, i).value;
    RanksUpdate(s.pushers, i, s1.pushers[i]);
    if s.pushers[i].Holding? {
      IdsAppend(s.queue, s.pushers[i].id);
    }
  }

  // Left alone, every run of the threads ends within Left(s) steps, and where it ends everything
  // pushed has been finished: no push is ever forgotten.
  lemma {:induction false} WorkDrains(s: TaskState, steps: seq<Step>)
    requires TaskInvariant(s) && !s.stop && Trace(s, steps).Some?
    requires forall step :: step in steps ==> Quiet(step)
    ensures var s1 := Trace(s, steps).value;
      && |steps| + Left(s1) <= Left(s) && !s1.stop
      && ((forall step :: Quiet(step) ==> Take(s1, step).None?) ==> s1.finished == s1.pushed && s1.queue == [])
    decreases |steps|
  {
    hide TaskInvariant, Left, Take;
    if steps == [] {
      NoDeadlock(s);
    } else {
      assert steps[0] in steps;
      var s1 := Take(s, steps[0]).value;
      StepKeeps(s, steps[0]);
      QuietShrinks(s, steps[0]);
      WorkDrains(s1, steps[1..]);
    }
  }

  lemma QuietShrinks(s: TaskState, step: Step)
    requires TaskInvariant(s) && Quiet(step) && Take(s, step).Some?
    ensures Left(Take(s, step).value) < Left(s) && Take(s, step).value.stop == s.stop
  {
    hide TaskInvariant, Left;
    match step {
      case Push(i) => QuietPushShrinks(s, i);
      case _ => QuietWorkShrinks(s);
    }
  }

  // ---- What was asked for ----

  // How often push_work has been called with a task and not yet put it into the queue.
  function Waits(pushers: seq<Pusher>, id: nat): nat
    decreases |pushers|
  {
    if pushers == [] then 0 else WaitsIn(pushers[0], id) + Waits(pushers[1..], id)
  }

  function WaitsIn(p: Pusher, id: nat): nat {
    if (p.Wants? || p.Holding?) && p.id == id then 1 else 0
  }

  // How often push_work is called with a task.
  function Called(steps: seq<Step>, id: nat): nat
    decreases |steps|
  {
    if steps == [] then 0 else CalledBy(steps[0], id) + Called(steps[1..], id)
  }

  function CalledBy(step: Step, id: nat): nat {
    if step.Call? && step.id == id then 1 else 0
  }

  lemma {:induction false} WaitsUpdate(pushers: seq<Pusher>, i: nat, p: Pusher, id: nat)
    requires i < |pushers|
    ensures Waits(pushers[i := p], id) + WaitsIn(pushers[i], id) == Waits(pushers, id) + WaitsIn(p, id)
    decreases |pushers|
  {
    hide WaitsIn;
    var updated := pushers[i := p];
    if i == 0 {
      assert updated[1..] == pushers[1..];
    } else {
      assert updated[1..] == pushers[1..][i - 1 := p];
      WaitsUpdate(pushers[1..], i - 1, p, id);
    }
  }

  lemma StepAccepts(s: TaskState, step: Step, id: nat)
    requires Take(s, step).Some?
    ensures var s1 := Take(s, step).value;
      multiset(s1.pushed)[id] + Waits(s1.pushers, id)
      == multiset(s.pushed)[id] + Waits(s.pushers, id) + CalledBy(step, id)
  {
    hide Waits, TakeWork;
    if step.Call? {
      WaitsUpdate(s.pushers, step.i, Wants(step.id), id);
    } else if step.Push? {
      PushAccepts(s, step.i, id);
    } else if step.Work? {
      WorkAccepts(s);
    }
  }

  lemma PushAccepts(s: TaskState, i: nat, id: nat)
    requires i < |s.pushers| && TakePush(s, i).Some?
    ensures var s1 := TakePush(s, i).value;
      multiset(s1.pushed)[id] + Waits(s1.pushers, id) == multiset(s.pushed)[id] + Waits(s.pushers, id)
  {
    hide Waits;
    if s.pushers[i].Holding? {
      OneMore(s.pushed, s.pushers[i].id, id);
      WaitsUpdate(s.pushers, i, Pushed, id);
    } else {
      WaitsUpdate(s.pushers, i, TakePush(s, i).value.pushers[i], id);
      assert TakePush(s, i).value.pushed == s.pushed;
    }
  }

  lemma OneMore(ids: seq<nat>, x: nat, id: nat)
    ensures multiset(ids + [x])[id] == multiset(ids)[id] + if x == id then 1 else 0
  {
    assert multiset(ids + [x]) == multiset(ids) + multiset{x};
  }

  lemma WorkAccepts(s: TaskState)
    requires TakeWork(s).Some?
    ensures TakeWork(s).value.pushed == s.pushed && TakeWork(s).value.pushers == s.pushers
  {}

  // Every task push_work is called with gets into the queue as often as it is called with it, and no other.
  lemma {:induction false} CalledArePushed(s: TaskState, steps: seq<Step>, id: nat)
    requires Trace(s, steps).Some?
    ensures var s1 := Trace(s, steps).value;
      multiset(s1.pushed)[id] + Waits(s1.pushers, id)
      == multiset(s.pushed)[id] + Waits(s.pushers, id) + Called(steps, id)
    decreases |steps|
  {
    hide Take, Waits, CalledBy;
    if steps != [] {
      StepAccepts(s, steps[0], id);
      CalledArePushed(Take(s, steps[0]).value, steps[1..], id);
    }
  }

  // ---- Shutdown ----

  // How many tasks the worker may still complete once it has been asked to stop.
  function Budget(w: Worker): nat {
    if w.WantsLock? || w.Testing? || w.Moved? || w.Running? then 1 else 0
  }

  lemma {:induction false} StoppedCompletes(s: TaskState, steps: seq<Step>)
    requires s.stop && Trace(s, steps).Some?
    ensures var s1 := Trace(s, steps).value;
      s1.stop && |s1.finished| + Budget(s1.worker) <= |s.finished| + Budget(s.worker)
    decreases |steps|
  {
    if steps != [] {
      StoppedCompletes(Take(s, steps[0]).value, steps[1..]);
    }
  }

  // After a stop request at most one more task is completed: the one in hand, or the one the worker takes
  // when it has tested the stop token before.
  lemma AfterStop(s: TaskState, steps: seq<Step>)
    requires Trace(s, [RequestStop] + steps).Some?
    ensures var s1 := Trace(s, [RequestStop] + steps).value;
      s1.stop && |s1.finished| + Budget(s1.worker) <= |s.finished| + Budget(s.worker)
  {
    assert ([RequestStop] + steps)[1..] == steps;
    StoppedCompletes(Take(s, RequestStop).value, steps);
  }

  ghost predicate Stuck(s: TaskState) {
    forall step :: Quiet(step) ==> Take(s, step).None?
  }

  // A run of the threads that ends with the worker never leaving do_work.
  ghost predicate Hangs(s: TaskState, steps: seq<Step>) {
    && (forall step :: step in steps ==> Quiet(step))
    && Trace(s, steps).Some? && Stuck(Trace(s, steps).value) && !Trace(s, steps).value.worker.Exited?
  }

  ghost predicate AboutToPush(s: TaskState, i: nat) {
    i < |s.pushers| && (s.pushers[i].Wants? || s.pushers[i].Holding?)
  }

  // The worker has tested the stop token before the request and is about to wait for work that nobody brings.
  ghost predicate MayHang(s: TaskState) {
    (s.worker.WantsLock? || s.worker.Testing?) && s.queue == [] && forall i: nat :: !AboutToPush(s, i)
  }

  // Once the destructor has asked for a stop and notified, the worker can be left waiting for ever exactly
  // when the request fell between its test of the stop token and its wait, and no push is under way.
  lemma ShutdownHangsIff(s: TaskState)
    requires TaskInvariant(s) && s.stop
    ensures Take(s, NotifyAll).Some?
    ensures (exists steps :: Hangs(Take(s, NotifyAll).value, steps)) <==> MayHang(s)
  {
    hide TaskInvariant, Hangs, MayHang;
    var s1 := Take(s, NotifyAll).value;
    StepKeeps(s, NotifyAll);
    NotifyHelps(s);
    if MayHang(s1) {
      var steps := HangingRun(s1);
      assert Hangs(s1, steps);
    } else {
      forall steps
        ensures !Hangs(s1, steps)
      {
        if Hangs(s1, steps) {
          HangParts(s1, steps);
          ShutdownCompletes(s1, steps);
        }
      }
    }
  }

  lemma NotifyHelps(s: TaskState)
    ensures var s1 := Take(s, NotifyAll).value; !s1.worker.Waiting? && (MayHang(s1) <==> MayHang(s))
  {
    assert forall i: nat :: AboutToPush(Take(s, NotifyAll).value, i) <==> AboutToPush(s, i);
  }

  lemma HangParts(s: TaskState, steps: seq<Step>)
    requires Hangs(s, steps)
    ensures forall step :: step in steps ==> Quiet(step)
    ensures Trace(s, steps).Some? && Stuck(Trace(s, steps).value) && !Trace(s, steps).value.worker.Exited?
  {}

  ghost predicate Active(s: TaskState, i: nat) {
    i < |s.pushers| && !s.pushers[i].Outside?
  }

  // A waiting worker will be notified.
  ghost predicate WillWake(s: TaskState) {
    s.worker.Waiting? ==> exists i: nat :: Active(s, i)
  }

  lemma SafeStep(s: TaskState, step: Step)
    requires TaskInvariant(s) && s.stop && !MayHang(s) && WillWake(s) && Quiet(step) && Take(s, step).Some?
    ensures var s1 := Take(s, step).value; s1.stop && !MayHang(s1) && WillWake(s1)
  {
    hide Ids, Conserved, NoLostWakeup;
    var s1 := Take(s, step).value;
    if exists i: nat :: AboutToPush(s, i) {
      var i: nat :| AboutToPush(s, i);
      assert Active(s1, i);
      assert AboutToPush(s1, i) || s1.queue != [];
    } else if s.worker.Waiting? && s1.worker.Waiting? {
      var i: nat :| Active(s, i);
      assert Active(s1, i);
    }
  }

  lemma StuckMeansExited(s: TaskState)
    requires TaskInvariant(s) && s.stop && WillWake(s) && Stuck(s)
    ensures s.worker.Exited?
  {
    hide Ids, Conserved, NoLostWakeup, FrontShape;
    assert Quiet(Work);
    if s.owner.ByPusher? {
      HolderMoves(s);
      assert false;
    } else if s.worker.Waiting? {
      var i: nat :| Active(s, i);
      ActiveMoves(s, i);
      assert false;
    }
  }

  lemma ActiveMoves(s: TaskState, i: nat)
    requires MutualExclusion(s) && s.worker.Waiting? && !s.owner.ByPusher? && Active(s, i)
    ensures Quiet(Push(i)) && Take(s, Push(i)).Some?
  {}

  lemma HolderActive(s: TaskState)
    requires MutualExclusion(s)
    ensures s.owner.ByPusher? ==> Active(s, s.owner.i)
  {
    assert s.owner.ByPusher? ==> PusherHolds(s.pushers[s.owner.i]);
  }

  lemma {:induction false} ShutdownCompletes(s: TaskState, steps: seq<Step>)
    requires TaskInvariant(s) && s.stop && !MayHang(s) && WillWake(s) && Trace(s, steps).Some?
    requires forall step :: step in steps ==> Quiet(step)
    ensures Stuck(Trace(s, steps).value) ==> Trace(s, steps).value.worker.Exited?
    decreases |steps|
  {
    hide TaskInvariant, Take, MayHang, WillWake, Stuck;
    if steps == [] {
      if Stuck(s) {
        StuckMeansExited(s);
      }
    } else {
      assert steps[0] in steps;
      StepKeeps(s, steps[0]);
      SafeStep(s, steps[0]);
      ShutdownCompletes(Take(s, steps[0]).value, steps[1..]);
    }
  }

  // The pushers leave, the worker finds no work and waits.
  lemma {:induction false} HangingRun(s: TaskState) returns (steps: seq<Step>)
    requires TaskInvariant(s) && s.stop && MayHang(s)
    ensures Hangs(s, steps)
    decreases Left(s)
  {
    hide TaskInvariant, Hangs, MayHang, Left, Take;
    var step := HangingStep(s);
    StepKeeps(s, step);
    QuietShrinks(s, step);
    var s1 := Take(s, step).value;
    var rest := [];
    if !s1.worker.Waiting? {
      rest := HangingRun(s1);
    }
    steps := [step] + rest;
    HangsLater(s, step, rest);
  }

  lemma HangingStep(s: TaskState) returns (step: Step)
    requires TaskInvariant(s) && s.stop && MayHang(s)
    ensures Quiet(step) && Take(s, step).Some?
    ensures var s1 := Take(s, step).value; if s1.worker.Waiting? then Hangs(s1, []) else s1.stop && MayHang(s1)
  {
    hide Ids, Conserved, NoLostWakeup, FrontShape;
    if i: nat :| Active(s, i) {
      assert !AboutToPush(s, i);
      step := Push(i);
      var s1 := Take(s, step).value;
      assert forall j: nat :: AboutToPush(s1, j) ==> AboutToPush(s, j);
    } else {
      step := Work;
      HolderActive(s);
      var s1 := Take(s, step).value;
      assert forall j: nat :: AboutToPush(s1, j) ==> Active(s, j);
      assert forall j: nat :: Active(s1, j) ==> Active(s, j);
      if s1.worker.Waiting? {
        NobodyMoves(s1);
      }
    }
  }

  lemma NobodyMoves(s: TaskState)
    requires s.worker.Waiting? && forall i: nat :: !Active(s, i)
    ensures Hangs(s, [])
  {
    forall step | Quiet(step)
      ensures Take(s, step).None?
    {
      assert step.Push? ==> !Active(s, step.i);
    }
  }

  lemma HangsLater(s: TaskState, step: Step, rest: seq<Step>)
    requires Quiet(step) && Take(s, step).Some? && Hangs(Take(s, step).value, rest)
    ensures Hangs(s, [step] + rest)
  {
    hide Take, Stuck, Quiet;
    assert ([step] + rest)[1..] == rest;
  }
}
