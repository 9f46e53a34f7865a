/**
 Pointer slots while a collection runs beside the mutators: every interleaving of mutator
 stores and allocations with the collector's steps. Each atomic operation of the source
 is one step.
 */
module RootSlots {
  import opened FatPtrs
  import opened Heaps

  // Where the collector is in its turn for one slot.
  datatype Pc =
    | Idle
    | Loaded(slot: nat, v: nat)                // test_ptr has read v from the slot
    | Copied(slot: nat, v: nat, copy: nat)     // the copy is there, the slot is not yet swung
    | Swung(slot: nat, v: nat, copy: nat)      // the exchange was tried, v is still in the table

  // `managed` are the table's entries outside to-space; `issued` the to-space addresses reserved since the
  // flip, which set the bump index of that space back to 0. Slots may hold any address.
  datatype RootState = RootState(slots: map<nat, nat>, visited: map<nat, nat>, managed: set<nat>, issued: set<nat>,
    pc: Pc)
  {
    // Every copy made so far.
    function Copies(): map<nat, nat> {
      if pc.Copied? || pc.Swung? then visited[pc.v := pc.copy] else visited
    }
  }

  datatype Action =
    | Store(slot: nat, w: nat)   // a mutator stores a pointer
    | Issue(a: nat)              // a mutator allocates
    | LateInsert(k: nat)         // an allocation reserved before the flip is recorded
    | Load(slot: nat)
    | SwingVisited
    | Skip
    | MakeCopy(a: nat)
    | SwingCopied
    | Finish

  function Exchange(slots: map<nat, nat>, slot: nat, expected: nat, desired: nat): map<nat, nat> {
    if slot in slots && slots[slot] == expected then slots[slot := desired] else slots
  }

  // The next state, if the action can be taken.
  function Act(c: Config, to: Space, s: RootState, action: Action): Option<RootState> {
    match action
    case Store(slot, w) =>
      if slot in s.slots then Some(s.(slots := s.slots[slot := w])) else None
    case Issue(a) =>
      if c.InSpace(to, a) && a !in s.issued then Some(s.(issued := s.issued + {a})) else None
    case LateInsert(k) =>
      if c.InSpace(to.Other(), k) then Some(s.(managed := s.managed + {k})) else None
    case Load(slot) =>
      if s.pc.Idle? && slot in s.slots then Some(s.(pc := Loaded(slot, s.slots[slot]))) else None
    case SwingVisited =>
      if s.pc.Loaded? && s.pc.v in s.visited then
        Some(s.(slots := Exchange(s.slots, s.pc.slot, s.pc.v, s.visited[s.pc.v]), pc := Idle))
      else None
    case Skip =>
      if s.pc.Loaded? && s.pc.v !in s.visited && s.pc.v !in s.managed then Some(s.(pc := Idle)) else None
    case MakeCopy(a) =>
      if s.pc.Loaded? && s.pc.v !in s.visited && s.pc.v in s.managed && c.InSpace(to, a) && a !in s.issued then
        Some(s.(pc := Copied(s.pc.slot, s.pc.v, a), issued := s.issued + {a}))
      else None
    case SwingCopied =>
      if s.pc.Copied? then
        Some(s.(slots := Exchange(s.slots, s.pc.slot, s.pc.v, s.pc.copy), pc := Swung(s.pc.slot, s.pc.v, s.pc.copy)))
      else None
    case Finish =>
      if s.pc.Swung? then
        Some(s.(visited := s.visited[s.pc.v := s.pc.copy], managed := s.managed - {s.pc.v}, pc := Idle))
      else None
  }

  function Play(c: Config, to: Space, s: RootState, actions: seq<Action>): Option<RootState>
    decreases |actions|
  {
    if actions == [] then Some(s)
    else
      match Play(c, to, s, actions[..|actions| - 1])
      case None => None
      case Some(s1) => Act(c, to, s1, actions[|actions| - 1])
  }

  // The pointer a mutator last stored in a slot, or the one it held at the start.
  function LastStored(slots: map<nat, nat>, actions: seq<Action>, slot: nat): nat
    requires slot in slots
    decreases |actions|
  {
    if actions == [] then slots[slot]
    else
      match actions[|actions| - 1]
      case Store(a, w) => if a == slot then w else LastStored(slots, actions[..|actions| - 1], slot)
      case _ => LastStored(slots, actions[..|actions| - 1], slot)
  }

  // ---- The invariant ----

  ghost predicate CopiesSound(c: Config, to: Space, issued: set<nat>, copies: map<nat, nat>) {
    && (forall k :: k in copies ==> c.InSpace(to.Other(), k) && copies[k] in issued && c.InSpace(to, copies[k]))
    && (forall j, k :: j in copies && k in copies && copies[j] == copies[k] ==> j == k)
  }

  ghost predicate RootInvariant(c: Config, to: Space, s: RootState) {
    && CopiesSound(c, to, s.issued, s.Copies())
    && (forall k :: k in s.managed ==> c.InSpace(to.Other(), k))
    && (s.pc.Copied? || s.pc.Swung? ==> s.pc.v !in s.visited)
  }

  // A collection that has just begun: from-space objects are managed, nothing has been copied.
  ghost predicate Begins(c: Config, to: Space, s: RootState) {
    && s.pc.Idle? && s.visited == map[]
    && (forall k :: k in s.managed ==> c.InSpace(to.Other(), k))
  }

  lemma BeginsSound(c: Config, to: Space, s: RootState)
    requires Begins(c, to, s)
    ensures RootInvariant(c, to, s)
  {}

  lemma ActKeeps(c: Config, to: Space, s: RootState, action: Action)
    requires SpacesApart(c) && RootInvariant(c, to, s) && Act(c, to, s, action).Some?
    ensures RootInvariant(c, to, Act(c, to, s, action).value)
  {}

  lemma {:induction false} PlayKeeps(c: Config, to: Space, s: RootState, actions: seq<Action>)
    requires SpacesApart(c) && RootInvariant(c, to, s) && Play(c, to, s, actions).Some?
    ensures RootInvariant(c, to, Play(c, to, s, actions).value)
    decreases |actions|
  {
    hide RootInvariant, Act;
    if actions != [] {
      var front := actions[..|actions| - 1];
      PlayKeeps(c, to, s, front);
      ActKeeps(c, to, Play(c, to, s, front).value, actions[|actions| - 1]);
    }
  }

  // ---- What a slot stands for ----

  ghost predicate IsCopyOf(copies: map<nat, nat>, k: nat, w: nat) {
    k in copies && copies[k] == w
  }

  // A pointer with copies turned back into their originals.
  ghost function Erase(copies: map<nat, nat>, w: nat): nat {
    if exists k: nat :: IsCopyOf(copies, k, w) then var k: nat :| IsCopyOf(copies, k, w); k else w
  }

  lemma EraseCopy(c: Config, to: Space, issued: set<nat>, copies: map<nat, nat>, k: nat)
    requires SpacesApart(c) && CopiesSound(c, to, issued, copies) && k in copies
    ensures Erase(copies, copies[k]) == k == Erase(copies, k)
  {
    assert IsCopyOf(copies, k, copies[k]);
  }

  // A copy of v made at a changes what w stands for exactly when w is a.
  lemma EraseNewCopy(c: Config, to: Space, issued: set<nat>, copies: map<nat, nat>, v: nat, a: nat, w: nat)
    requires SpacesApart(c) && CopiesSound(c, to, issued, copies)
    requires a !in issued && c.InSpace(to, a) && c.InSpace(to.Other(), v) && v !in copies
    ensures w != a ==> Erase(copies[v := a], w) == Erase(copies, w)
    ensures w == a ==> Erase(copies[v := a], w) == v && Erase(copies, w) == a && v != a
  {
    var copies1 := copies[v := a];
    assert IsCopyOf(copies1, v, a);
    forall k: nat
      ensures w != a ==> (IsCopyOf(copies1, k, w) <==> IsCopyOf(copies, k, w))
    {}
    if w != a && exists k: nat :: IsCopyOf(copies, k, w) {
      var k: nat :| IsCopyOf(copies, k, w);
      assert IsCopyOf(copies1, k, w);
    }
  }

  // The copy goes to the very address the slot holds: a pointer from before this collection's flip.
  predicate HitsStale(s: RootState, action: Action, slot: nat)
    requires slot in s.slots
  {
    action.MakeCopy? && s.slots[slot] == action.a
  }

  // A step that is no store to a slot changes what the slot stands for exactly when it places a copy at
  // the address the slot holds. The collector's exchange never overwrites a newer store, and replaces a
  // pointer only by that pointer's copy.
  lemma SlotChangesIff(c: Config, to: Space, s: RootState, action: Action, slot: nat)
    requires SpacesApart(c) && RootInvariant(c, to, s) && Act(c, to, s, action).Some? && slot in s.slots
    ensures var s1 := Act(c, to, s, action).value;
      && slot in s1.slots
      && (if action.Store? && action.slot == slot then s1.slots[slot] == action.w
          else
            && (s1.slots[slot] == s.slots[slot] || IsCopyOf(s1.Copies(), s.slots[slot], s1.slots[slot]))
            && (Erase(s1.Copies(), s1.slots[slot]) != Erase(s.Copies(), s.slots[slot]) <==> HitsStale(s, action, slot)))
  {
    hide Erase;
    match action {
      case MakeCopy(a) => EraseNewCopy(c, to, s.issued, s.Copies(), s.pc.v, a, s.slots[slot]);
      case SwingVisited => EraseCopy(c, to, s.issued, s.Copies(), s.pc.v);
      case SwingCopied => EraseCopy(c, to, s.issued, s.Copies(), s.pc.v);
      case _ =>
    }
  }

  // In every run each slot holds the pointer last stored in it or that pointer's copy, and so stands for
  // what that pointer stands for.
  lemma {:induction false} SlotsFollowStores(c: Config, to: Space, s: RootState, actions: seq<Action>, slot: nat)
    requires SpacesApart(c) && Begins(c, to, s) && Play(c, to, s, actions).Some? && slot in s.slots
    ensures var s1 := Play(c, to, s, actions).value; var w := LastStored(s.slots, actions, slot);
      && slot in s1.slots
      && (s1.slots[slot] == w || IsCopyOf(s1.Copies(), w, s1.slots[slot]))
      && Erase(s1.Copies(), s1.slots[slot]) == Erase(s1.Copies(), w)
    decreases |actions|
  {
    hide Erase, RootInvariant, Act;
    BeginsSound(c, to, s);
    PlayKeeps(c, to, s, actions);
    if actions != [] {
      var front, action := actions[..|actions| - 1], actions[|actions| - 1];
      SlotsFollowStores(c, to, s, front, slot);
      PlayKeeps(c, to, s, front);
      FollowOneMore(c, to, Play(c, to, s, front).value, action, slot, LastStored(s.slots, front, slot));
    }
    HoldsIsErased(c, to, Play(c, to, s, actions).value, slot, LastStored(s.slots, actions, slot));
  }

  lemma HoldsIsErased(c: Config, to: Space, s: RootState, slot: nat, w: nat)
    requires SpacesApart(c) && RootInvariant(c, to, s) && slot in s.slots
    requires s.slots[slot] == w || IsCopyOf(s.Copies(), w, s.slots[slot])
    ensures Erase(s.Copies(), s.slots[slot]) == Erase(s.Copies(), w)
  {
    hide Erase;
    if s.slots[slot] != w {
      EraseCopy(c, to, s.issued, s.Copies(), w);
    }
  }

  // One step further: w is the pointer last stored before it.
  lemma FollowOneMore(c: Config, to: Space, s: RootState, action: Action, slot: nat, w: nat)
    requires SpacesApart(c) && RootInvariant(c, to, s) && Act(c, to, s, action).Some? && slot in s.slots
    requires s.slots[slot] == w || IsCopyOf(s.Copies(), w, s.slots[slot])
    ensures var s1 := Act(c, to, s, action).value;
      var w1 := if action.Store? && action.slot == slot then action.w else w;
      && slot in s1.slots && (s1.slots[slot] == w1 || IsCopyOf(s1.Copies(), w1, s1.slots[slot]))
  {
    hide Erase, RootInvariant;
    SlotChangesIff(c, to, s, action, slot);
    ActKeeps(c, to, s, action);
    var s1 := Act(c, to, s, action).value;
    if s.slots[slot] != w {
      CopyKept(c, to, s, action, w);
      CopyIsNoOriginal(c, to, s1, w);
    }
  }

  // A copy stays the copy it is, and is no original itself.
  lemma CopyKept(c: Config, to: Space, s: RootState, action: Action, w: nat)
    requires RootInvariant(c, to, s) && Act(c, to, s, action).Some? && w in s.Copies()
    ensures var copies1 := Act(c, to, s, action).value.Copies(); w in copies1 && copies1[w] == s.Copies()[w]
  {}

  lemma CopyIsNoOriginal(c: Config, to: Space, s: RootState, w: nat)
    requires SpacesApart(c) && RootInvariant(c, to, s) && w in s.Copies()
    ensures s.Copies()[w] !in s.Copies()
  {}

  // ---- Without stale pointers ----

  // w is no to-space address that is still to be handed out.
  ghost predicate Current(c: Config, to: Space, issued: set<nat>, w: nat) {
    c.InSpace(to, w) ==> w in issued
  }

  ghost predicate NoStaleSlots(c: Config, to: Space, s: RootState) {
    forall slot :: slot in s.slots ==> Current(c, to, s.issued, s.slots[slot])
  }

  // Mutators store only current pointers.
  ghost predicate StoresCurrent(c: Config, to: Space, s: RootState, actions: seq<Action>) {
    forall i :: 0 <= i < |actions| && actions[i].Store? && Play(c, to, s, actions[..i]).Some? ==>
      Current(c, to, Play(c, to, s, actions[..i]).value.issued, actions[i].w)
  }

  lemma ActStaysCurrent(c: Config, to: Space, s: RootState, action: Action)
    requires RootInvariant(c, to, s) && NoStaleSlots(c, to, s) && Act(c, to, s, action).Some?
    requires action.Store? ==> Current(c, to, s.issued, action.w)
    ensures NoStaleSlots(c, to, Act(c, to, s, action).value)
  {
    var s1 := Act(c, to, s, action).value;
    assert !s.pc.Idle? && s.pc.v in s.Copies() ==> s.Copies()[s.pc.v] in s.issued;
    forall slot | slot in s1.slots
      ensures Current(c, to, s1.issued, s1.slots[slot])
    {
      assert slot in s.slots && Current(c, to, s.issued, s.slots[slot]);
    }
  }

  // Where no slot starts out stale and mutators store current pointers, what a slot stands for never
  // changes but by a store to it, in any interleaving.
  lemma {:induction false} LogicalValueStays(c: Config, to: Space, s: RootState, actions: seq<Action>, slot: nat)
    requires SpacesApart(c) && RootInvariant(c, to, s) && NoStaleSlots(c, to, s) && slot in s.slots
    requires Play(c, to, s, actions).Some? && StoresCurrent(c, to, s, actions)
    ensures var s1 := Play(c, to, s, actions).value;
      && slot in s1.slots && NoStaleSlots(c, to, s1)
      && ((forall a :: a in actions && a.Store? ==> a.slot != slot) ==>
           Erase(s1.Copies(), s1.slots[slot]) == Erase(s.Copies(), s.slots[slot]))
    decreases |actions|
  {
    hide Erase, RootInvariant, Act, Current;
    if actions != [] {
      var front, action := actions[..|actions| - 1], actions[|actions| - 1];
      forall i | 0 <= i < |front|
        ensures actions[i] == front[i] && actions[..i] == front[..i]
      {}
      assert StoresCurrent(c, to, s, front);
      assert forall a :: a in front ==> a in actions;
      assert action in actions;
      LogicalValueStays(c, to, s, front, slot);
      PlayKeeps(c, to, s, front);
      var s0 := Play(c, to, s, front).value;
      ActStaysCurrent(c, to, s0, action);
      SlotChangesIff(c, to, s0, action, slot);
      NotStaleNow(c, to, s0, action, slot);
    }
  }

  lemma NotStaleNow(c: Config, to: Space, s: RootState, action: Action, slot: nat)
    requires NoStaleSlots(c, to, s) && slot in s.slots && Act(c, to, s, action).Some?
    ensures !HitsStale(s, action, slot)
  {
    assert Current(c, to, s.issued, s.slots[slot]);
  }

  // A slot that still holds an address of the next to-space, and an object copied to that address: the
  // slot then stands for the object, although nobody stored it there.
  lemma StaleSlotTurnsIntoAnObject(c: Config, to: Space, v: nat, a: nat)
    requires SpacesApart(c) && c.InSpace(to.Other(), v) && c.InSpace(to, a)
    ensures var s := RootState(map[0 := a, 1 := v], map[], {v}, {}, Idle); var actions := [Load(1), MakeCopy(a)];
      && Begins(c, to, s) && !NoStaleSlots(c, to, s) && Play(c, to, s, actions).Some?
      && var s1 := Play(c, to, s, actions).value;
         && 0 in s1.slots && s1.slots[0] == a == Erase(s.Copies(), s.slots[0])
         && Erase(s1.Copies(), s1.slots[0]) == v != a
  {
    hide Erase;
    var s := RootState(map[0 := a, 1 := v], map[], {v}, {}, Idle);
    var actions := [Load(1), MakeCopy(a)];
    var s1 := s.(pc := Loaded(1, v));
    assert actions[..1] == [Load(1)] && actions[..1][..0] == [];
    assert Play(c, to, s, []) == Some(s);
    assert Play(c, to, s, actions[..1]) == Act(c, to, s, Load(1)) == Some(s1);
    assert Play(c, to, s, actions) == Act(c, to, s1, MakeCopy(a));
    assert !Current(c, to, s.issued, s.slots[0]);
    EraseNewCopy(c, to, {}, map[], v, a, a);
  }

  // ---- No missed update ----

  // How far a turn for v at a slot has come when no mutator stores to the slot meanwhile.
  ghost predicate Turn(s: RootState, slot: nat, v: nat) {
    && slot in s.slots
    && match s.pc
       case Loaded(a, x) => a == slot && x == v && s.slots[slot] == v
       case Copied(a, x, _) => a == slot && x == v && s.slots[slot] == v
       case Swung(a, x, copy) => a == slot && x == v && s.slots[slot] == copy
       case Idle => if v in s.visited then s.slots[slot] == s.visited[v] else v !in s.managed && s.slots[slot] == v
  }

  // A turn that no store to its slot disturbs leaves the copy in the slot, or an unmanaged pointer untouched.
  lemma {:induction false} TurnCompletes(c: Config, to: Space, s: RootState, actions: seq<Action>, slot: nat, v: nat)
    requires SpacesApart(c) && RootInvariant(c, to, s) && Play(c, to, s, actions).Some?
    requires s.pc == Loaded(slot, v) && slot in s.slots && s.slots[slot] == v
    requires forall a :: a in actions ==> !a.Load? && (a.Store? ==> a.slot != slot) && a != LateInsert(v)
    ensures Turn(Play(c, to, s, actions).value, slot, v)
    decreases |actions|
  {
    hide RootInvariant;
    if actions != [] {
      var front, action := actions[..|actions| - 1], actions[|actions| - 1];
      assert action in actions;
      TurnCompletes(c, to, s, front, slot, v);
      PlayKeeps(c, to, s, front);
      TurnStep(c, to, Play(c, to, s, front).value, action, slot, v);
    }
  }

  lemma TurnStep(c: Config, to: Space, s: RootState, action: Action, slot: nat, v: nat)
    requires RootInvariant(c, to, s) && Act(c, to, s, action).Some? && Turn(s, slot, v)
    requires !action.Load? && (action.Store? ==> action.slot != slot) && action != LateInsert(v)
    ensures Turn(Act(c, to, s, action).value, slot, v)
  {}

  // An undisturbed turn at slot: its pointer is loaded; an object not yet copied is copied to a, the slot
  // swung and the original forgotten; a copied one only swings the slot; anything else is left alone.
  lemma UndisturbedTurn(c: Config, to: Space, s: RootState, slot: nat, a: nat)
    requires s.pc.Idle? && slot in s.slots && c.InSpace(to, a) && a !in s.issued
    ensures var v := s.slots[slot];
      if v in s.visited then
        Play(c, to, s, [Load(slot), SwingVisited]) == Some(s.(slots := s.slots[slot := s.visited[v]]))
      else if v in s.managed then
        Play(c, to, s, [Load(slot), MakeCopy(a), SwingCopied, Finish])
        == Some(RootState(s.slots[slot := a], s.visited[v := a], s.managed - {v}, s.issued + {a}, Idle))
      else Play(c, to, s, [Load(slot), Skip]) == Some(s)
  {
    hide Act, Play;
    var v := s.slots[slot];
    var s1 := s.(pc := Loaded(slot, v));
    LoadTakes(c, to, s, slot);
    if v in s.visited {
      SwingTakes(c, to, s1);
      PlayTwo(c, to, s, Load(slot), SwingVisited);
    } else if v in s.managed {
      var s2 := s1.(pc := Copied(slot, v, a), issued := s.issued + {a});
      var s3 := s2.(slots := s.slots[slot := a], pc := Swung(slot, v, a));
      CopyTakes(c, to, s1, a, s2, s3);
      PlayTwo(c, to, s, Load(slot), MakeCopy(a));
      PlayTwo(c, to, s2, SwingCopied, Finish);
      PlayTwice(c, to, s, [Load(slot), MakeCopy(a)], SwingCopied, Finish);
      assert [Load(slot), MakeCopy(a)] + [SwingCopied, Finish] == [Load(slot), MakeCopy(a), SwingCopied, Finish];
    } else {
      SkipTakes(c, to, s1);
      PlayTwo(c, to, s, Load(slot), Skip);
    }
  }

  lemma LoadTakes(c: Config, to: Space, s: RootState, slot: nat)
    requires s.pc.Idle? && slot in s.slots
    ensures Act(c, to, s, Load(slot)) == Some(s.(pc := Loaded(slot, s.slots[slot])))
  {}

  lemma SwingTakes(c: Config, to: Space, s: RootState)
    requires s.pc.Loaded? && s.pc.v in s.visited && s.pc.slot in s.slots && s.slots[s.pc.slot] == s.pc.v
    ensures Act(c, to, s, SwingVisited)
      == Some(s.(slots := s.slots[s.pc.slot := s.visited[s.pc.v]], pc := Idle))
  {}

  lemma CopyTakes(c: Config, to: Space, s: RootState, a: nat, s2: RootState, s3: RootState)
    requires s.pc.Loaded? && s.pc.v !in s.visited && s.pc.v in s.managed && c.InSpace(to, a) && a !in s.issued
    requires s.pc.slot in s.slots && s.slots[s.pc.slot] == s.pc.v
    requires s2 == s.(pc := Copied(s.pc.slot, s.pc.v, a), issued := s.issued + {a})
    requires s3 == s2.(slots := s.slots[s.pc.slot := a], pc := Swung(s.pc.slot, s.pc.v, a))
    ensures Act(c, to, s, MakeCopy(a)) == Some(s2) && Act(c, to, s2, SwingCopied) == Some(s3)
    ensures Act(c, to, s3, Finish)
      == Some(s3.(visited := s.visited[s.pc.v := a], managed := s.managed - {s.pc.v}, pc := Idle))
  {}

  lemma SkipTakes(c: Config, to: Space, s: RootState)
    requires s.pc.Loaded? && s.pc.v !in s.visited && s.pc.v !in s.managed
    ensures Act(c, to, s, Skip) == Some(s.(pc := Idle))
  {}

  lemma PlayTwo(c: Config, to: Space, s: RootState, first: Action, second: Action)
    requires Act(c, to, s, first).Some?
    ensures Play(c, to, s, [first, second]) == Act(c, to, Act(c, to, s, first).value, second)
  {
    hide Act;
    var actions := [first, second];
    assert actions[..1] == [first] && [first][..0] == [];
    assert Play(c, to, s, []) == Some(s);
    assert Play(c, to, s, [first]) == Act(c, to, s, first);
  }

  lemma PlayTwice(c: Config, to: Space, s: RootState, front: seq<Action>, first: Action, second: Action)
    requires Play(c, to, s, front).Some?
    ensures Play(c, to, s, front + [first, second]) == Play(c, to, Play(c, to, s, front).value, [first, second])
  {
    hide Act;
    var s1 := Play(c, to, s, front).value;
    var actions := front + [first, second];
    assert actions[..|actions| - 1] == front + [first] && (front + [first])[..|front|] == front;
    assert [first, second][..1] == [first] && [first][..0] == [];
    assert Play(c, to, s1, []) == Some(s1);
    assert Play(c, to, s1, [first]) == Act(c, to, s1, first) == Play(c, to, s, front + [first]);
  }

  // ---- What the table still holds, and which addresses have been handed out ----

  ghost predicate CopiesWereManaged(s: RootState) {
    s.pc.Copied? || s.pc.Swung? ==> s.pc.v in s.managed && s.pc.v !in s.visited
  }

  // A from-space object that no late insert records again leaves the table exactly when its copy is
  // complete; nothing but managed objects is copied.
  lemma {:induction false} ManagedUntilCopied(c: Config, to: Space, s: RootState, actions: seq<Action>, k: nat)
    requires Begins(c, to, s) && Play(c, to, s, actions).Some? && LateInsert(k) !in actions
    ensures var s1 := Play(c, to, s, actions).value;
      && CopiesWereManaged(s1)
      && (k in s1.managed <==> k in s.managed && k !in s1.visited) && (k in s1.visited ==> k in s.managed)
    decreases |actions|
  {
    hide Act, CopiesWereManaged;
    if actions == [] {
      assert CopiesWereManaged(s) by { NothingCopied(c, to, s); }
    } else {
      var front, action := actions[..|actions| - 1], actions[|actions| - 1];
      assert action in actions && forall x :: x in front ==> x in actions;
      ManagedUntilCopied(c, to, s, front, k);
      ManagedStep(c, to, Play(c, to, s, front).value, action, k);
    }
  }

  lemma NothingCopied(c: Config, to: Space, s: RootState)
    requires Begins(c, to, s)
    ensures CopiesWereManaged(s)
  {}

  lemma ManagedStep(c: Config, to: Space, s: RootState, action: Action, k: nat)
    requires CopiesWereManaged(s) && Act(c, to, s, action).Some?
    ensures var s1 := Act(c, to, s, action).value;
      && CopiesWereManaged(s1)
      && (k in s1.managed <==> action == LateInsert(k) || (k in s.managed && !(action.Finish? && s.pc.v == k)))
      && (k in s1.visited <==> k in s.visited || (action.Finish? && s.pc.v == k))
      && (action.Finish? && s.pc.v == k ==> k in s.managed && k !in s.visited)
  {}

  // The to-space address an action hands out.
  function HandsOut(action: Action): Option<nat> {
    if action.Issue? || action.MakeCopy? then Some(action.a) else None
  }

  // The addresses handed out are those issued, and none is handed out twice.
  lemma {:induction false} IssuedOnce(c: Config, to: Space, s: RootState, actions: seq<Action>)
    requires Play(c, to, s, actions).Some?
    ensures var issued := Play(c, to, s, actions).value.issued;
      && (forall a :: a in issued <==>
           a in s.issued || exists i :: 0 <= i < |actions| && HandsOut(actions[i]) == Some(a))
      && (forall i :: 0 <= i < |actions| && HandsOut(actions[i]).Some? ==> HandsOut(actions[i]).value !in s.issued)
      && (forall i, j :: 0 <= i < j < |actions| && HandsOut(actions[i]).Some? ==>
           HandsOut(actions[i]) != HandsOut(actions[j]))
    decreases |actions|
  {
    hide Act, HandsOut;
    if actions != [] {
      var n := |actions| - 1;
      var front, action := actions[..n], actions[n];
      IssuedOnce(c, to, s, front);
      IssueStep(c, to, Play(c, to, s, front).value, action);
      assert forall i :: 0 <= i < n ==> actions[i] == front[i];
      assert actions[n] == action;
    }
  }

  lemma IssueStep(c: Config, to: Space, s: RootState, action: Action)
    requires Act(c, to, s, action).Some?
    ensures var issued := Act(c, to, s, action).value.issued;
      if HandsOut(action).None? then issued == s.issued
      else HandsOut(action).value !in s.issued && issued == s.issued + {HandsOut(action).value}
  {}
}
