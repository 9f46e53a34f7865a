/**
 Root discovery of src/gc_scan.cpp: the stack range kept for each thread, and the roots
 found by scanning those ranges. Registers and thread ids are arguments.
 */
module GcRoots {
  import opened FatPtrs
  import opened Slots

  // (start, end): the numerically greatest base pointer seen, the stack pointer seen last.
  datatype Range = Range(start: nat, end: nat)

  // One call of update_stack_range.
  datatype StackEvent = StackEvent(tid: nat, basePtr: nat, sp: nat)

  const RED_ZONE: nat := 128

  function Max(a: nat, b: nat): nat {
    if a >= b then a else b
  }

  function Update(ranges: map<nat, Range>, e: StackEvent): map<nat, Range> {
    ranges[e.tid := Range(if e.tid in ranges then Max(ranges[e.tid].start, e.basePtr) else e.basePtr, e.sp)]
  }

  function Replay(history: seq<StackEvent>): map<nat, Range>
    decreases |history|
  {
    if history == [] then map[] else Update(Replay(history[..|history| - 1]), history[|history| - 1])
  }

  // What a range has to be after a history, said without replaying it.
  ghost predicate Spans(history: seq<StackEvent>, tid: nat, r: Range) {
    && (forall i :: 0 <= i < |history| && history[i].tid == tid ==> history[i].basePtr <= r.start)
    && (exists i :: 0 <= i < |history| && history[i].tid == tid && history[i].basePtr == r.start)
    && (exists i :: 0 <= i < |history| && LastOf(history, tid, i) && history[i].sp == r.end)
  }

  ghost predicate LastOf(history: seq<StackEvent>, tid: nat, i: nat)
    requires i < |history|
  {
    history[i].tid == tid && forall j :: i < j < |history| ==> history[j].tid != tid
  }

  ghost predicate Seen(history: seq<StackEvent>, tid: nat) {
    exists i :: 0 <= i < |history| && history[i].tid == tid
  }

  // After any sequence of updates a thread has a range exactly when it reported once, and the range
  // runs from its greatest base pointer to its last stack pointer.
  lemma {:induction false} RangesSpanHistory(history: seq<StackEvent>, tid: nat)
    ensures tid in Replay(history) <==> Seen(history, tid)
    ensures tid in Replay(history) ==> Spans(history, tid, Replay(history)[tid])
    decreases |history|
  {
    hide Spans, Seen, LastOf;
    if history == [] {
      assert !Seen(history, tid) by { NothingSeen(tid); }
    } else {
      var front, e := history[..|history| - 1], history[|history| - 1];
      RangesSpanHistory(front, tid);
      assert history == front + [e];
      if e.tid == tid {
        NewEvent(front, e, Replay(front));
      } else {
        OtherEvent(front, e, tid, Replay(front));
      }
    }
  }

  lemma NothingSeen(tid: nat)
    ensures !Seen([], tid)
  {}

  lemma NewEvent(front: seq<StackEvent>, e: StackEvent, ranges: map<nat, Range>)
    requires e.tid in ranges <==> Seen(front, e.tid)
    requires e.tid in ranges ==> Spans(front, e.tid, ranges[e.tid])
    ensures Seen(front + [e], e.tid) && Spans(front + [e], e.tid, Update(ranges, e)[e.tid])
  {
    var h, r := front + [e], Update(ranges, e)[e.tid];
    assert h[|front|] == e;
    assert LastOf(h, e.tid, |front|);
    if r.start != e.basePtr {
      var i :| 0 <= i < |front| && front[i].tid == e.tid && front[i].basePtr == r.start;
      assert h[i] == front[i];
    }
    forall i | 0 <= i < |h| && h[i].tid == e.tid
      ensures h[i].basePtr <= r.start
    {
      if i < |front| {
        assert h[i] == front[i];
      }
    }
  }

  lemma OtherEvent(front: seq<StackEvent>, e: StackEvent, tid: nat, ranges: map<nat, Range>)
    requires e.tid != tid
    requires tid in ranges <==> Seen(front, tid)
    requires tid in ranges ==> Spans(front, tid, ranges[tid])
    ensures Seen(front + [e], tid) <==> Seen(front, tid)
    ensures tid in ranges ==> Spans(front + [e], tid, ranges[tid])
  {
    var h := front + [e];
    if Seen(front, tid) {
      var i :| 0 <= i < |front| && front[i].tid == tid && front[i].basePtr == ranges[tid].start;
      assert h[i] == front[i];
      var j :| 0 <= j < |front| && LastOf(front, tid, j) && front[j].sp == ranges[tid].end;
      assert h[j] == front[j] && LastOf(h, tid, j);
    }
  }

  // ---- Roots ----

  // A slot the scan of one thread's stack recognises.
  predicate LocalRoot(mem: Memory, r: Range, a: nat) {
    a % 8 == 0 && r.end - RED_ZONE <= a && a + 16 < r.start + 1 && IsSlot(mem, a)
  }

  // The scanned memory is there; a stack pointer is never within the red zone of address 0.
  ghost predicate Readable(size: nat, ranges: map<nat, Range>) {
    size <= ADDRESS_LIMIT && forall tid :: tid in ranges ==>
      RED_ZONE <= ranges[tid].end < WORD_LIMIT && ranges[tid].start + 1 <= size
  }

  ghost predicate IsRoot(mem: Memory, globals: seq<nat>, ranges: map<nat, Range>, tids: set<nat>, a: nat) {
    a in globals || exists tid :: tid in tids && tid in ranges && LocalRoot(mem, ranges[tid], a)
  }

  class Roots {
    const globals: seq<nat>             // m_global_roots
    var ranges: map<nat, Range>         // m_stack_ranges
    ghost var history: seq<StackEvent>  // the calls of UpdateStackRange so far

    ghost predicate Valid()
      reads this
    {
      ranges == Replay(history)
    }

    constructor (globals: seq<nat>)
      ensures Valid() && this.globals == globals && history == []
    {
      this.globals := globals;
      ranges := map[];
      history := [];
    }

    // The early return leaves out nothing the full update would have done.
    method UpdateStackRange(tid: nat, basePtr: nat, sp: nat)
      requires Valid()
      modifies this`ranges, this`history
      ensures Valid() && history == old(history) + [StackEvent(tid, basePtr, sp)]
      ensures ranges == Update(old(ranges), StackEvent(tid, basePtr, sp))
    {
      hide Spans;
      ghost var e := StackEvent(tid, basePtr, sp);
      assert (history + [e])[..|history|] == history;
      var existingRecord := false;
      if tid in ranges {
        var r := ranges[tid];
        if basePtr <= r.start && sp == r.end {
          history := history + [e];
          assert ranges[tid := r] == ranges;
          return;
        }
        existingRecord := true;
      }
      if existingRecord {
        ranges := ranges[tid := Range(Max(ranges[tid].start, basePtr), sp)];
      } else {
        ranges := ranges[tid := Range(basePtr, sp)];
      }
      history := history + [e];
    }

    // scan_locals
    method ScanLocals(mem: array<Byte>, tid: nat) returns (slots: seq<nat>)
      requires tid in ranges && Readable(mem.Length, ranges)
      ensures forall a :: a in slots <==> LocalRoot(mem[..], ranges[tid], a)
    {
      hide IsSlot;
      slots := ScanSlots(mem, ranges[tid].end - RED_ZONE, ranges[tid].start + 1);
    }

    // get_roots: the stored globals first, then exactly the slots recognised in each thread's range.
    method GetRoots(mem: array<Byte>, tid: nat, basePtr: nat, sp: nat) returns (roots: seq<nat>)
      requires Valid() && Readable(mem.Length, Update(ranges, StackEvent(tid, basePtr, sp)))
      modifies this`ranges, this`history
      ensures Valid() && history == old(history) + [StackEvent(tid, basePtr, sp)]
      ensures globals <= roots
      ensures forall a :: a in roots <==> IsRoot(mem[..], globals, ranges, ranges.Keys, a)
    {
      hide LocalRoot, IsSlot, Readable, Replay, Update, IsRoot;
      UpdateStackRange(tid, basePtr, sp);
      NoThreads(mem[..], globals, ranges);
      roots := globals;
      var left := ranges.Keys;
      assert ranges.Keys - left == {};
      while left != {}
        invariant left <= ranges.Keys && globals <= roots
        invariant forall a :: a in roots <==> IsRoot(mem[..], globals, ranges, ranges.Keys - left, a)
        decreases |left|
        modifies {}
      {
        var id :| id in left;
        var slots := ScanLocals(mem, id);
        OneMoreThread(mem[..], globals, ranges, ranges.Keys - left, id);
        assert left - {id} < left && ranges.Keys - (left - {id}) == ranges.Keys - left + {id};
        roots := roots + slots;
        left := left - {id};
      }
      assert ranges.Keys - left == ranges.Keys;
    }
  }

  lemma NoThreads(mem: Memory, globals: seq<nat>, ranges: map<nat, Range>)
    ensures forall a :: a in globals <==> IsRoot(mem, globals, ranges, {}, a)
  {}

  lemma OneMoreThread(mem: Memory, globals: seq<nat>, ranges: map<nat, Range>, tids: set<nat>, id: nat)
    requires id in ranges
    ensures forall a ::
      IsRoot(mem, globals, ranges, tids + {id}, a) <==>
        IsRoot(mem, globals, ranges, tids, a) || LocalRoot(mem, ranges[id], a)
  {
    hide LocalRoot;
  }

  // One thread's part of the roots, said from its reports: some base pointer it reported, the i-th, and its
  // last stack pointer, the j-th, less the 128 bytes of the red zone, enclose the slot.
  ghost predicate InReportedFrames(history: seq<StackEvent>, i: nat, j: nat, a: nat)
    requires i < |history| && j < |history|
  {
    && history[i].tid == history[j].tid && LastOf(history, history[j].tid, j)
    && history[j].sp - 128 <= a && a + 16 <= history[i].basePtr
  }

  // The roots are the globals and exactly the recognised slots inside the stacks the threads have reported:
  // between a thread's last stack pointer, less 128, and any base pointer it ever reported.
  lemma ReportedFramesAreScanned(mem: Memory, globals: seq<nat>, history: seq<StackEvent>, a: nat)
    ensures IsRoot(mem, globals, Replay(history), Replay(history).Keys, a) <==>
      a in globals || (a % 8 == 0 && IsSlot(mem, a)
        && exists i: nat, j: nat :: i < |history| && j < |history| && InReportedFrames(history, i, j, a))
  {
    hide IsSlot, Replay, LastOf;
    var ranges := Replay(history);
    if tid :| tid in ranges && LocalRoot(mem, ranges[tid], a) {
      RangesSpanHistory(history, tid);
      var i :| 0 <= i < |history| && history[i].tid == tid && history[i].basePtr == ranges[tid].start;
      var j :| 0 <= j < |history| && LastOf(history, tid, j) && history[j].sp == ranges[tid].end;
      LastIs(history, tid, j);
      assert InReportedFrames(history, i, j, a);
    }
    if a % 8 == 0 && IsSlot(mem, a) {
      forall i: nat, j: nat | i < |history| && j < |history| && InReportedFrames(history, i, j, a)
        ensures IsRoot(mem, globals, ranges, ranges.Keys, a)
      {
        FrameIsRoot(mem, globals, history, i, j, a);
      }
    }
  }

  lemma LastIs(history: seq<StackEvent>, tid: nat, j: nat)
    requires j < |history| && LastOf(history, tid, j)
    ensures history[j].tid == tid
  {}

  lemma FrameIsRoot(mem: Memory, globals: seq<nat>, history: seq<StackEvent>, i: nat, j: nat, a: nat)
    requires i < |history| && j < |history| && InReportedFrames(history, i, j, a)
    requires a % 8 == 0 && IsSlot(mem, a)
    ensures IsRoot(mem, globals, Replay(history), Replay(history).Keys, a)
  {
    hide IsSlot, Replay;
    var tid := history[j].tid;
    RangesSpanHistory(history, tid);
    assert Seen(history, tid);
    var r := Replay(history)[tid];
    var k :| 0 <= k < |history| && LastOf(history, tid, k) && history[k].sp == r.end;
    assert k == j;
    assert LocalRoot(mem, r, a);
  }
}
