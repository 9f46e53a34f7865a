/**
 The operations of include/gc_base.h on memory that is updated in place.
 */
module Slots {
  import opened Bits
  import opened FatPtrs

  // test_ptr: the slot's address if header and tag are there.
  method TestSlot(mem: array<Byte>, a: nat) returns (r: Option<nat>)
    requires a + 16 <= mem.Length
    ensures r == if IsSlot(mem[..], a) then Some(Target(mem[..], a)) else None
  {
    hide MaybePtr, TestPtr, IsSlot, Target;
    r := TestPtr(mem[..], a);
    TestPtrIsTarget(mem[..], a);
  }

  // compare_exchange: nothing is returned when the slot was updated, otherwise what it holds.
  method CompareExchange(mem: array<Byte>, a: nat, expected: nat, desired: nat) returns (current: Option<nat>)
    requires a + 16 <= mem.Length
    modifies mem
    ensures mem[..] == Cas(old(mem[..]), a, expected, desired)
    ensures current.None? <==> old(Le(mem[..], a + 8, 8)) == FatWord(expected)
    ensures current.Some? ==> current.value == old(Target(mem[..], a)) && mem[..] == old(mem[..])
  {
    hide Le, Digit, FatWord, And;
    if Le(mem[..], a + 8, 8) == FatWord(expected) {
      var w := FatWord(desired);
      forall i | 0 <= i < 8 {
        mem[a + 8 + i] := Digit(w, i);
      }
      assert mem[..] == PutWord(old(mem[..]), a + 8, w);
      current := None;
    } else {
      WordLow(mem[..], a + 8);
      current := Some(And(Le(mem[..], a + 8, 8), PTR_MASK));
    }
  }

  // atomic_update: a slot stays a slot and names the new address, whatever was there.
  method AtomicUpdate(mem: array<Byte>, a: nat, other: nat)
    requires a + 16 <= mem.Length && other < ADDRESS_LIMIT
    modifies mem
    ensures mem[..] == PutWord(old(mem[..]), a + 8, FatWord(other))
    ensures IsSlot(mem[..], a) <==> old(Le(mem[..], a, 8) == PTR_HEADER)
    ensures Target(mem[..], a) == other
    ensures SameExcept(old(mem[..]), mem[..], a + 8, 8)
  {
    hide Le, Digit, FatWord, And, SameExcept;
    var w := FatWord(other);
    forall i | 0 <= i < 8 {
      mem[a + 8 + i] := Digit(w, i);
    }
    assert mem[..] == PutWord(old(mem[..]), a + 8, w);
    FatWordIsTagged(other);
    PutWordReads(old(mem[..]), a + 8, w);
    TaggedWord(mem[..], a + 8, other);
    HeaderUntouched(old(mem[..]), mem[..], a);
  }

  lemma HeaderUntouched(m: Memory, m': Memory, a: nat)
    requires SameExcept(m, m', a + 8, 8)
    ensures Le(m, a, 8) == Le(m', a, 8)
  {
    hide Le;
    LeSame(m, a, m', a, 8);
  }

  // scan_memory, collecting the slots its callback would be given.
  method ScanSlots(mem: array<Byte>, begin: nat, end: nat) returns (slots: seq<nat>)
    requires end <= mem.Length <= ADDRESS_LIMIT && begin < WORD_LIMIT
    ensures slots == ScanMemory(mem[..], begin, end)
    ensures forall s :: s in slots <==> s % 8 == 0 && begin <= s && s + 16 < end && IsSlot(mem[..], s)
    ensures forall i, j :: 0 <= i < j < |slots| ==> slots[i] + 16 <= slots[j]
  {
    hide IsSlot, MaybePtr, And, AlignUp8;
    var start := And(begin, ALIGNMENT_MASK);
    AlignUpIsMask(begin);
    var ptr := if start == begin then start else start + 8;
    AlignUpLeast(begin, 0);
    slots := [];
    while ptr + 16 < end
      invariant slots + Scan(mem[..], ptr, end) == ScanMemory(mem[..], begin, end)
      decreases end - ptr
    {
      MaybePtrIsSlot(mem[..], ptr);
      if MaybePtr(mem[..], ptr) {
        slots := slots + [ptr];
      }
      ptr := ptr + 8;
    }
    forall s: nat
      ensures s in slots <==> s % 8 == 0 && begin <= s && s + 16 < end && IsSlot(mem[..], s)
    {
      ScanMemoryExact(mem[..], begin, end, s);
    }
    forall i, j | 0 <= i < j < |slots|
      ensures slots[i] + 16 <= slots[j]
    {
      ScanSeparated(mem[..], AlignUp8(begin), end, i, j);
    }
  }

  // A pointer built from an address is recognised and gives that address back, without the bits above
  // the 56 it has room for.
  lemma FatPtrRoundTrip(p: nat)
    ensures And(FatWord(p), PTR_MASK) == p % ADDRESS_LIMIT
    ensures FatWord(p) < WORD_LIMIT && And(FatWord(p), PTR_TAG_MASK) == PTR_TAG
  {
    hide And, FatWord;
    var q := p % ADDRESS_LIMIT;
    WordOfLow(p);
    FatWordIsTagged(q);
    TagAbove(q);
  }

  lemma WordOfLow(p: nat)
    ensures FatWord(p) == FatWord(p % ADDRESS_LIMIT)
  {
    var q := p % ADDRESS_LIMIT;
    AndLowMask(p, 56);
    AndLowMask(q, 56);
    Pow2Constants();
    DivModUnique(q, ADDRESS_LIMIT, 0, q);
  }

  lemma TagAbove(q: nat)
    requires q < ADDRESS_LIMIT
    ensures And(PTR_TAG + q, PTR_MASK) == q && And(PTR_TAG + q, PTR_TAG_MASK) == PTR_TAG
  {
    hide And;
    var w := PTR_TAG + q;
    AndLowMask(w, 56);
    Pow2Constants();
    DivModUnique(w, ADDRESS_LIMIT, 0x9F, q);
    ShiftLMul(0xFF, 56);
    AndShifted(w, 0xFF, 56);
    ShiftRDiv(w, 56);
    AndByte(0x9F);
    ShiftLMul(0x9F, 56);
  }

  lemma {:induction false} ShiftRDiv(x: nat, k: nat)
    ensures ShiftR(x, k) == x / Pow2(k)
    decreases k
  {
    if k == 0 {
      assert x / 1 == x;
    } else {
      ShiftRDiv(x / 2, k - 1);
      HalveDivMod(x, Pow2(k - 1));
    }
  }
}
