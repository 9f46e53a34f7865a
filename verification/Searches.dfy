/**
 The order in which a depth-first search of the object graph meets the objects, on memory
 that nothing moves, and where objects lie when they are placed in a given order.
 */
module Searches {
  import opened FatPtrs
  import opened Heaps
  import opened Ledgers
  import opened Evacuation
  import opened Retention

  // ---- The search ----

  ghost function Elems(order: seq<nat>): set<nat> {
    set k | k in order
  }

  // One turn of the search: the topmost slot may name an object not met before.
  ghost function Turn(m: Memory, t: Table, stack: seq<nat>, order: seq<nat>): (seq<nat>, seq<nat>)
    requires stack != []
  {
    var s, rest := stack[|stack| - 1], stack[..|stack| - 1];
    var v := Target(m, s);
    if IsSlot(m, s) && v in t && v !in order then (rest + ScanMemory(m, v, v + t[v].size), order + [v])
    else (rest, order)
  }

  lemma TurnProgress(m: Memory, t: Table, stack: seq<nat>, order: seq<nat>)
    requires stack != []
    ensures var (stack1, order1) := Turn(m, t, stack, order);
      || t.Keys - Elems(order1) < t.Keys - Elems(order)
      || (order1 == order && |stack1| < |stack|)
  {
    hide IsSlot, Target, ScanMemory;
    var (stack1, order1) := Turn(m, t, stack, order);
    if order1 != order {
      var v := Target(m, stack[|stack| - 1]);
      assert v in t.Keys - Elems(order) && v !in t.Keys - Elems(order1);
    }
  }

  ghost function Search(m: Memory, t: Table, stack: seq<nat>, order: seq<nat>): seq<nat>
    decreases t.Keys - Elems(order), |stack|
  {
    if stack == [] then order
    else
      TurnProgress(m, t, stack, order);
      Search(m, t, Turn(m, t, stack, order).0, Turn(m, t, stack, order).1)
  }

  ghost function SearchRoots(m: Memory, t: Table, roots: seq<nat>, order: seq<nat>): seq<nat>
    decreases |roots|
  {
    if roots == [] then order else SearchRoots(m, t, roots[1..], Search(m, t, [roots[0]], order))
  }

  // ---- The layout ----

  // The bump index after the objects have been placed one after the other from the start of a space.
  function LayoutEnd(base: nat, t: Table, order: seq<nat>): nat
    decreases |order|
  {
    if order == [] then 0
    else
      var n, k := LayoutEnd(base, t, order[..|order| - 1]), order[|order| - 1];
      if k in t then n + Padding(base + n, t[k].alignment) + t[k].size else n
  }

  lemma NothingLaid(base: nat, t: Table)
    ensures LayoutEnd(base, t, []) == 0
  {}

  lemma LayoutGrows(base: nat, t: Table, order: seq<nat>, k: nat)
    requires k in t
    ensures var n := LayoutEnd(base, t, order);
      LayoutEnd(base, t, order + [k]) == n + Padding(base + n, t[k].alignment) + t[k].size
  {
    hide Padding;
    assert (order + [k])[..|order|] == order;
  }

  lemma {:induction false} LayoutMonotone(base: nat, t: Table, order: seq<nat>, longer: seq<nat>)
    requires order <= longer
    ensures LayoutEnd(base, t, order) <= LayoutEnd(base, t, longer)
    decreases |longer|
  {
    hide Padding;
    if |longer| > |order| {
      LayoutMonotone(base, t, order, longer[..|longer| - 1]);
    } else {
      assert order == longer;
    }
  }

  lemma {:induction false} SearchExtends(m: Memory, t: Table, stack: seq<nat>, order: seq<nat>)
    ensures order <= Search(m, t, stack, order)
    decreases t.Keys - Elems(order), |stack|
  {
    hide IsSlot, Target, ScanMemory;
    if stack != [] {
      TurnProgress(m, t, stack, order);
      SearchExtends(m, t, Turn(m, t, stack, order).0, Turn(m, t, stack, order).1);
    }
  }

  lemma {:induction false} SearchRootsExtends(m: Memory, t: Table, roots: seq<nat>, order: seq<nat>)
    ensures order <= SearchRoots(m, t, roots, order)
    decreases |roots|
  {
    hide Search;
    if roots != [] {
      SearchExtends(m, t, [roots[0]], order);
      SearchRootsExtends(m, t, roots[1..], Search(m, t, [roots[0]], order));
    }
  }

  // ---- The search finds exactly the reachable objects, each once ----

  // Slots waiting in the search lead to reachable objects, and what it has met is reachable.
  ghost predicate SearchSound(m: Memory, t: Table, roots: seq<nat>, stack: seq<nat>, order: seq<nat>) {
    && (forall s :: s in stack ==> Leads(m, t, roots, s))
    && (forall k :: k in order ==> k in t && Reachable(m, t, roots, k))
    && (forall i, j :: 0 <= i < j < |order| ==> order[i] != order[j])
  }

  // Fields of objects met, and the roots taken, wait or have been followed.
  ghost predicate SearchComplete(m: Memory, t: Table, taken: seq<nat>, stack: seq<nat>, order: seq<nat>) {
    && (forall r :: r in taken ==> r in stack || Followed(m, t, order, r))
    && (forall k, s :: k in order && FieldSlot(m, t, k, s) ==> s in stack || Followed(m, t, order, s))
  }

  ghost predicate Followed(m: Memory, t: Table, order: seq<nat>, s: nat) {
    IsSlot(m, s) && Target(m, s) in t ==> Target(m, s) in order
  }

  lemma TurnSound(m: Memory, t: Table, roots: seq<nat>, stack: seq<nat>, order: seq<nat>)
    requires stack != [] && SearchSound(m, t, roots, stack, order)
    ensures var (stack1, order1) := Turn(m, t, stack, order); SearchSound(m, t, roots, stack1, order1)
  {
    hide IsSlot, Target, ScanMemory, Reachable, FieldSlot;
    var s, rest := stack[|stack| - 1], stack[..|stack| - 1];
    var v := Target(m, s);
    assert Leads(m, t, roots, s);
    if IsSlot(m, s) && v in t && v !in order {
      forall b | b in ScanMemory(m, v, v + t[v].size)
        ensures Leads(m, t, roots, b)
      {
        ScannedIsField(m, t, v, b);
        if IsSlot(m, b) && Target(m, b) in t {
          FieldReaches(m, t, roots, v, b);
        }
      }
    }
  }

  lemma ScannedIsField(m: Memory, t: Table, k: nat, b: nat)
    requires k in t
    ensures b in ScanMemory(m, k, k + t[k].size) <==> FieldSlot(m, t, k, b)
  {
    hide IsSlot, ScanMemory;
    ScanMemoryExact(m, k, k + t[k].size, b);
  }

  lemma TurnComplete(m: Memory, t: Table, taken: seq<nat>, stack: seq<nat>, order: seq<nat>)
    requires stack != [] && SearchComplete(m, t, taken, stack, order)
    ensures var (stack1, order1) := Turn(m, t, stack, order); SearchComplete(m, t, taken, stack1, order1)
  {
    hide IsSlot, Target, ScanMemory, FieldSlot;
    var s, rest := stack[|stack| - 1], stack[..|stack| - 1];
    var v := Target(m, s);
    var (stack1, order1) := Turn(m, t, stack, order);
    assert Followed(m, t, order1, s);
    assert forall b :: b in stack ==> b in rest || b == s;
    assert forall b :: Followed(m, t, order, b) ==> Followed(m, t, order1, b);
    if order1 != order {
      forall b | FieldSlot(m, t, v, b)
        ensures b in stack1
      {
        ScannedIsField(m, t, v, b);
      }
    }
  }

  lemma {:induction false} SearchExact(
      m: Memory, t: Table, roots: seq<nat>, taken: seq<nat>, stack: seq<nat>, order: seq<nat>)
    requires SearchSound(m, t, roots, stack, order) && SearchComplete(m, t, taken, stack, order)
    ensures var found := Search(m, t, stack, order);
      SearchSound(m, t, roots, [], found) && SearchComplete(m, t, taken, [], found)
    decreases t.Keys - Elems(order), |stack|
  {
    hide SearchSound, SearchComplete, Turn;
    if stack != [] {
      var (stack1, order1) := Turn(m, t, stack, order);
      TurnProgress(m, t, stack, order);
      TurnSound(m, t, roots, stack, order);
      TurnComplete(m, t, taken, stack, order);
      SearchExact(m, t, roots, taken, stack1, order1);
    }
  }

  lemma {:induction false} SearchRootsExact(
      m: Memory, t: Table, roots: seq<nat>, taken: seq<nat>, left: seq<nat>, order: seq<nat>)
    requires roots == taken + left
    requires SearchSound(m, t, roots, [], order) && SearchComplete(m, t, taken, [], order)
    ensures var found := SearchRoots(m, t, left, order);
      SearchSound(m, t, roots, [], found) && SearchComplete(m, t, roots, [], found)
    decreases |left|
  {
    hide Search, Reachable, FieldSlot, IsSlot, Target;
    if left == [] {
      assert taken == roots;
    } else {
      var r, rest := left[0], left[1..];
      assert r in roots && taken + [r] + rest == roots;
      if IsSlot(m, r) && Target(m, r) in t {
        RootReaches(m, t, roots, r);
      }
      SearchExact(m, t, roots, taken + [r], [r], order);
      SearchRootsExact(m, t, roots, taken + [r], rest, Search(m, t, [r], order));
    }
  }

  lemma {:induction false} WalkFound(
      m: Memory, t: Table, roots: seq<nat>, order: seq<nat>, root: nat, offsets: seq<nat>)
    requires SearchComplete(m, t, roots, [], order) && ValidWalk(m, t, roots, root, offsets)
    ensures Walk(m, root, offsets) in order
    decreases |offsets|
  {
    hide IsSlot, Target, FieldSlot;
    if offsets == [] {
      assert Followed(m, t, order, root);
    } else {
      var front := offsets[..|offsets| - 1];
      WalkFound(m, t, roots, order, root, front);
      var s := Walk(m, root, front) + offsets[|offsets| - 1];
      FieldAbove(m, t, Walk(m, root, front), s);
      assert Followed(m, t, order, s);
    }
  }

  // The order in which objects are first met from the roots.
  ghost function Order(s: State, roots: seq<nat>): seq<nat> {
    SearchRoots(s.mem, s.table, roots, [])
  }

  // It lists exactly the reachable objects, each once.
  lemma OrderExact(s: State, roots: seq<nat>)
    ensures Elems(Order(s, roots)) == Live(s.mem, s.table, roots)
    ensures forall i, j :: 0 <= i < j < |Order(s, roots)| ==> Order(s, roots)[i] != Order(s, roots)[j]
  {
    hide Reachable, SearchRoots, ValidWalk, Walk;
    SearchRootsExact(s.mem, s.table, roots, [], roots, []);
    forall k | k in s.table && Reachable(s.mem, s.table, roots, k)
      ensures k in Order(s, roots)
    {
      var root, offsets := Witness(s.mem, s.table, roots, k);
      WalkFound(s.mem, s.table, roots, Order(s, roots), root, offsets);
    }
  }

  lemma Witness(m: Memory, t: Table, roots: seq<nat>, k: nat) returns (root: nat, offsets: seq<nat>)
    requires Reachable(m, t, roots, k)
    ensures ValidWalk(m, t, roots, root, offsets) && Walk(m, root, offsets) == k
  {
    hide ValidWalk, Walk;
    root, offsets :| ValidWalk(m, t, roots, root, offsets) && Walk(m, root, offsets) == k;
  }

  lemma {:induction false} LayoutWithinSum(base: nat, t: Table, order: seq<nat>)
    requires Elems(order) <= t.Keys && forall i, j :: 0 <= i < j < |order| ==> order[i] != order[j]
    requires forall k :: k in t ==> t[k].alignment > 0
    ensures LayoutEnd(base, t, order) <= Sum(t, Elems(order), true)
    decreases |order|
  {
    hide Padding;
    if order != [] {
      var front, k := order[..|order| - 1], order[|order| - 1];
      assert k in Elems(order) && k in t;
      assert Elems(front) <= Elems(order) && k !in Elems(front);
      assert Elems(order) == Elems(front) + {k};
      LayoutWithinSum(base, t, front);
      SumAdd(t, Elems(front), k, true);
      PaddingAligns(base + LayoutEnd(base, t, front), t[k].alignment);
    }
  }
}
