/**
 The tagged pointers of include/gc_base.h, on byte memory.

 A pointer slot is 16 bytes: an 8-byte header word, then the pointer word, whose
 top byte is a tag and whose low 7 bytes are the address.
 Memory is a sequence of bytes indexed by address; reads outside it give 0.
 */
module FatPtrs {
  import opened Bits

  type Byte = b: int | 0 <= b < 256
  type Memory = seq<Byte>

  datatype Option<+T> = None | Some(value: T)

  const PTR_HEADER: nat := 0x706F_696E_7465_7273
  const PTR_TAG_BYTE: Byte := 0x9F
  const PTR_TAG: nat := 0x9F00_0000_0000_0000
  const PTR_MASK: nat := 0x00FF_FFFF_FFFF_FFFF
  const ADDRESS_LIMIT: nat := 0x0100_0000_0000_0000
  const WORD_LIMIT: nat := 0x1_0000_0000_0000_0000
  const PTR_TAG_MASK: nat := 0xFF00_0000_0000_0000
  const ALIGNMENT_MASK: nat := 0xFFFF_FFFF_FFFF_FFF8

  function At(m: Memory, a: int): Byte {
    if 0 <= a < |m| then m[a] else 0
  }

  // The little-endian number held by n bytes.
  function Le(m: Memory, a: int, n: nat): (r: nat)
    decreases n
  {
    if n == 0 then 0 else At(m, a) + 256 * Le(m, a + 1, n - 1)
  }

  // The source's own test: the header word, then the tag bits of the pointer word.
  predicate MaybePtr(m: Memory, a: int) {
    Le(m, a, 8) == PTR_HEADER && And(Le(m, a + 8, 8), PTR_TAG_MASK) == PTR_TAG
  }

  // The same test byte by byte.
  predicate IsSlot(m: Memory, a: int) {
    Le(m, a, 8) == PTR_HEADER && At(m, a + 15) == PTR_TAG_BYTE
  }

  // The address a slot names, without its tag.
  function Target(m: Memory, a: int): nat {
    Le(m, a + 8, 7)
  }

  function TestPtr(m: Memory, a: int): Option<nat> {
    if MaybePtr(m, a) then Some(And(Le(m, a + 8, 8), PTR_MASK)) else None
  }

  // The pointer word the constructor builds for an address.
  function FatWord(p: nat): nat {
    Or(And(p, PTR_MASK), PTR_TAG)
  }

  function Digit(w: nat, i: nat): Byte {
    if i == 0 then w % 256 else Digit(w / 256, i - 1)
  }

  function PutByte(m: Memory, a: int, w: nat, i: nat): Byte
    requires i < |m|
  {
    if a <= i < a + 8 then Digit(w, i - a) else m[i]
  }

  function PutWord(m: Memory, a: int, w: nat): (r: Memory)
    ensures |r| == |m|
  {
    seq(|m|, i requires 0 <= i < |m| => PutByte(m, a, w, i))
  }

  // compare_exchange on the pointer word of slot a.
  function Cas(m: Memory, a: int, expected: nat, desired: nat): (r: Memory)
    ensures |r| == |m|
  {
    if Le(m, a + 8, 8) == FatWord(expected) then PutWord(m, a + 8, FatWord(desired)) else m
  }

  function Scan(m: Memory, p: nat, end: nat): seq<nat>
    decreases end - p
  {
    if p + 16 >= end then []
    else if IsSlot(m, p) then [p] + Scan(m, p + 8, end)
    else Scan(m, p + 8, end)
  }

  function AlignUp8(a: nat): nat {
    if a % 8 == 0 then a else a - a % 8 + 8
  }

  // Every slot scan_memory reports between begin and end, lowest first.
  function ScanMemory(m: Memory, begin: nat, end: nat): seq<nat> {
    Scan(m, AlignUp8(begin), end)
  }

  // ---- Words and bytes ----

  lemma {:induction false} LeBound(m: Memory, a: int, n: nat)
    ensures Le(m, a, n) < Pow2(8 * n)
    decreases n
  {
    if n > 0 {
      LeBound(m, a + 1, n - 1);
      Pow2Bytes(n);
    }
  }

  lemma Pow2Nibble(k: nat)
    ensures Pow2(k + 4) == 16 * Pow2(k)
  {
    assert Pow2(k + 4) == 2 * Pow2(k + 3) && Pow2(k + 3) == 2 * Pow2(k + 2) && Pow2(k + 2) == 2 * Pow2(k + 1);
  }

  lemma Pow2Bytes(n: nat)
    requires n > 0
    ensures Pow2(8 * n) == 256 * Pow2(8 * (n - 1))
  {
    hide Pow2;
    var k := 8 * (n - 1);
    Pow2Nibble(k);
    Pow2Nibble(k + 4);
  }

  lemma Pow2Constants()
    ensures Pow2(56) == ADDRESS_LIMIT && Pow2(61) == 0x2000_0000_0000_0000
  {
    assert Pow2(0) == 1;
    Pow2Bytes(1); Pow2Bytes(2); Pow2Bytes(3); Pow2Bytes(4); Pow2Bytes(5); Pow2Bytes(6); Pow2Bytes(7);
    assert Pow2(61) == 2 * Pow2(60) && Pow2(60) == 2 * Pow2(59) && Pow2(59) == 2 * Pow2(58);
    assert Pow2(58) == 2 * Pow2(57) && Pow2(57) == 2 * Pow2(56);
  }

  lemma ShiftRByte(x: nat, b: nat)
    requires b < 256
    ensures ShiftR(b + 256 * x, 8) == x
  {
    var y := b + 256 * x;
    assert ShiftR(y, 8) == ShiftR(y / 2, 7) == ShiftR(y / 2 / 2, 6);
    assert ShiftR(y / 2 / 2, 6) == ShiftR(y / 2 / 2 / 2, 5) == ShiftR(y / 2 / 2 / 2 / 2, 4);
    assert ShiftR(y / 16, 4) == ShiftR(y / 16 / 2, 3) == ShiftR(y / 16 / 2 / 2, 2);
    assert ShiftR(y / 64, 2) == ShiftR(y / 64 / 2, 1) == ShiftR(y / 64 / 2 / 2, 0);
    assert y / 256 == x;
  }

  // Shifting a word right by whole bytes drops its low bytes.
  lemma {:induction false} ShiftRLe(m: Memory, a: int, n: nat, j: nat)
    requires j <= n
    ensures ShiftR(Le(m, a, n), 8 * j) == Le(m, a + j, n - j)
    decreases j
  {
    if j > 0 {
      ShiftRByte(Le(m, a + 1, n - 1), At(m, a));
      ShiftRShiftR(Le(m, a, n), 8, 8 * (j - 1));
      ShiftRLe(m, a + 1, n - 1, j - 1);
    }
  }

  lemma {:induction false} LeSplit(m: Memory, a: int, n: nat)
    ensures Le(m, a, n + 1) == Le(m, a, n) + Pow2(8 * n) * At(m, a + n)
    decreases n
  {
    if n == 0 {
      assert Le(m, a + 1, 0) == 0;
    } else {
      LeSplit(m, a + 1, n - 1);
      Pow2Bytes(n);
      Assoc(256, Pow2(8 * (n - 1)), At(m, a + n));
    }
  }

  lemma Assoc(a: nat, b: nat, c: nat)
    ensures (a * b) * c == a * (b * c)
  {}

  // An 8-byte word is its low 7 bytes below its top byte.
  lemma WordSplit(m: Memory, a: int)
    ensures Le(m, a, 8) == Le(m, a, 7) + ADDRESS_LIMIT * At(m, a + 7)
    ensures Le(m, a, 7) < ADDRESS_LIMIT
    ensures Le(m, a, 8) < WORD_LIMIT
  {
    LeSplit(m, a, 7);
    LeBound(m, a, 7);
    Pow2Constants();
  }

  lemma {:induction false} LeDigits(m: Memory, a: int, n: nat, w: nat)
    requires forall i :: 0 <= i < n ==> At(m, a + i) == Digit(w, i)
    requires w < Pow2(8 * n)
    ensures Le(m, a, n) == w
    decreases n
  {
    if n > 0 {
      Pow2Bytes(n);
      assert At(m, a + 0) == Digit(w, 0);
      forall i | 0 <= i < n - 1
        ensures At(m, a + 1 + i) == Digit(w / 256, i)
      {
        assert At(m, a + (i + 1)) == Digit(w, i + 1);
      }
      LeDigits(m, a + 1, n - 1, w / 256);
    }
  }

  // ---- The tag test, the constructor, the untagged address ----

  lemma ShiftLTag()
    ensures ShiftL(0xFF, 56) == PTR_TAG_MASK
    ensures forall b: nat :: ShiftL(b, 56) == ADDRESS_LIMIT * b
  {
    forall b: nat
      ensures ShiftL(b, 56) == ADDRESS_LIMIT * b
    {
      ShiftLMul(b, 56);
      Pow2Constants();
    }
  }

  lemma {:induction false} ShiftLMul(b: nat, k: nat)
    ensures ShiftL(b, k) == Pow2(k) * b
  {
    if k == 0 {
      assert 1 * b == b;
    } else {
      ShiftLMul(b, k - 1);
      Assoc(2, Pow2(k - 1), b);
    }
  }

  lemma AndByte(b: nat)
    requires b < 256
    ensures And(b, 0xFF) == b
  {
    hide And;
    AndLowMask(b, 8);
    Pow2Bytes(1);
    assert Pow2(8) == 256;
    DivModUnique(b, 256, 0, b);
  }

  lemma MaybePtrIsSlot(m: Memory, a: int)
    ensures MaybePtr(m, a) <==> IsSlot(m, a)
  {
    var w := Le(m, a + 8, 8);
    ShiftRLe(m, a + 8, 8, 7);
    assert Le(m, a + 15, 1) == At(m, a + 15) + 256 * Le(m, a + 16, 0);
    assert ShiftR(w, 56) == At(m, a + 15);
    ShiftLTag();
    AndShifted(w, 0xFF, 56);
    AndByte(At(m, a + 15));
  }

  lemma TestPtrIsTarget(m: Memory, a: int)
    ensures TestPtr(m, a) == if IsSlot(m, a) then Some(Target(m, a)) else None
  {
    MaybePtrIsSlot(m, a);
    WordLow(m, a + 8);
  }

  lemma WordLow(m: Memory, a: int)
    ensures And(Le(m, a, 8), PTR_MASK) == Le(m, a, 7)
  {
    AndLowMask(Le(m, a, 8), 56);
    Pow2Constants();
    WordSplit(m, a);
    DivModUnique(Le(m, a, 8), ADDRESS_LIMIT, At(m, a + 7), Le(m, a, 7));
  }

  lemma FatWordIsTagged(p: nat)
    requires p < ADDRESS_LIMIT
    ensures FatWord(p) == PTR_TAG + p
  {
    AndLowMask(p, 56);
    Pow2Constants();
    DivModUnique(p, ADDRESS_LIMIT, 0, p);
    AndTag(p);
  }

  lemma AndTag(p: nat)
    requires p < ADDRESS_LIMIT
    ensures And(p, PTR_TAG) == 0
  {
    Pow2Constants();
    ShiftLMul(0x9F, 56);
    AndShifted(p, 0x9F, 56);
    ShiftRSmall(p, 56);
    assert And(0, 0x9F) == 0;
    ShiftLMul(0, 56);
  }

  lemma {:induction false} ShiftRSmall(x: nat, k: nat)
    requires x < Pow2(k)
    ensures ShiftR(x, k) == 0
    decreases k
  {
    if k > 0 {
      ShiftRSmall(x / 2, k - 1);
    }
  }

  // ---- Slots ----

  // The n bytes at a in one memory are the n bytes at b in the other.
  ghost predicate SameBytes(m: Memory, a: int, m': Memory, b: int, n: nat) {
    forall i {:trigger At(m, i)} :: a <= i < a + n ==> At(m, i) == At(m', i + (b - a))
  }

  // The two memories agree outside the n bytes at a.
  ghost predicate SameExcept(m: Memory, m': Memory, a: int, n: nat) {
    forall i {:trigger At(m', i)} :: !(a <= i < a + n) ==> At(m', i) == At(m, i)
  }

  lemma SlotFrame(m: Memory, a: int, m': Memory, b: int)
    requires SameBytes(m, a, m', b, 16)
    ensures IsSlot(m, a) == IsSlot(m', b) && Target(m, a) == Target(m', b)
  {
    LeSame(m, a, m', b, 8);
    LeSame(m, a + 8, m', b + 8, 7);
    assert At(m, a + 15) == At(m', b + 15);
  }

  lemma {:induction false} LeSame(m: Memory, a: int, m': Memory, b: int, n: nat)
    requires SameBytes(m, a, m', b, n)
    ensures Le(m, a, n) == Le(m', b, n)
    decreases n
  {
    if n > 0 {
      assert At(m, a) == At(m', b);
      LeSame(m, a + 1, m', b + 1, n - 1);
    }
  }

  // The top byte of the header is not the tag, so no slot starts at the pointer word of another.
  lemma SlotsApart(m: Memory, a: int)
    requires IsSlot(m, a)
    ensures !IsSlot(m, a + 8)
  {
    if Le(m, a + 8, 8) == PTR_HEADER {
      WordSplit(m, a + 8);
    }
  }

  lemma PutWordReads(m: Memory, a: int, w: nat)
    requires 0 <= a && a + 8 <= |m| && w < WORD_LIMIT
    ensures Le(PutWord(m, a, w), a, 8) == w
    ensures SameExcept(m, PutWord(m, a, w), a, 8)
  {
    Pow2Constants();
    Pow2Bytes(8);
    LeDigits(PutWord(m, a, w), a, 8, w);
  }

  // A pointer word carries the tag exactly when it is the word of the address below it.
  lemma TaggedWord(m: Memory, a: int, p: nat)
    requires p < ADDRESS_LIMIT
    ensures Le(m, a, 8) == FatWord(p) <==> Le(m, a, 7) == p && At(m, a + 7) == PTR_TAG_BYTE
  {
    hide Le, FatWord;
    WordSplit(m, a);
    FatWordIsTagged(p);
  }

  // What compare_exchange does to a recognised slot, and that it touches no other byte.
  lemma CasEffect(m: Memory, a: int, expected: nat, desired: nat)
    requires IsSlot(m, a) && 0 <= a && a + 16 <= |m|
    requires expected < ADDRESS_LIMIT && desired < ADDRESS_LIMIT
    ensures var r := Cas(m, a, expected, desired);
      && IsSlot(r, a)
      && Target(r, a) == (if Target(m, a) == expected then desired else Target(m, a))
      && (Target(m, a) != expected ==> r == m)
      && SameExcept(m, r, a + 8, 8)
  {
    TaggedWord(m, a + 8, expected);
    if Target(m, a) == expected {
      FatWordIsTagged(desired);
      var r := PutWord(m, a + 8, FatWord(desired));
      PutWordReads(m, a + 8, FatWord(desired));
      TaggedWord(r, a + 8, desired);
      LeSame(m, a, r, a, 8);
    }
  }

  // compare_exchange on one slot keeps what every other aligned address is recognised as.
  lemma CasSeparation(m: Memory, a: int, expected: nat, desired: nat, b: int)
    requires IsSlot(m, a) && 0 <= a && a + 16 <= |m|
    requires expected < ADDRESS_LIMIT && desired < ADDRESS_LIMIT
    requires a % 8 == 0 && b % 8 == 0 && a != b
    ensures IsSlot(Cas(m, a, expected, desired), b) == IsSlot(m, b)
    ensures IsSlot(m, b) ==> Target(Cas(m, a, expected, desired), b) == Target(m, b)
  {
    var r := Cas(m, a, expected, desired);
    CasEffect(m, a, expected, desired);
    if b == a + 8 {
      SlotsApart(m, a);
      SlotsApart(r, a);
    } else {
      AlignedApart(a, b);
      SlotFrame(m, b, r, b);
    }
  }

  lemma AlignedApart(a: int, b: int)
    requires a % 8 == 0 && b % 8 == 0 && a != b && b != a + 8
    ensures b + 16 <= a + 8 || a + 16 <= b
  {}

  // ---- The scanner ----

  lemma AlignUpIsMask(a: nat)
    requires a < WORD_LIMIT
    ensures AlignUp8(a) == if And(a, ALIGNMENT_MASK) == a then a else And(a, ALIGNMENT_MASK) + 8
  {
    hide And, ShiftL, ShiftR, Pow2;
    var q := a / 8;
    EightIsShift(a);
    ShiftLMul(0x1FFF_FFFF_FFFF_FFFF, 3);
    AndShifted(a, 0x1FFF_FFFF_FFFF_FFFF, 3);
    AndLowMask(q, 61);
    Pow2Constants();
    DivModUnique(q, 0x2000_0000_0000_0000, 0, q);
    ShiftLMul(q, 3);
  }

  lemma EightIsShift(a: nat)
    ensures ShiftR(a, 3) == a / 8 && Pow2(3) == 8
  {
    assert ShiftR(a, 3) == ShiftR(a / 2, 2) == ShiftR(a / 2 / 2, 1) == a / 8;
  }

  lemma AlignedStep(p: int)
    requires p % 8 == 0
    ensures (p + 8) % 8 == 0
  {}

  lemma NextAligned(p: int, s: int)
    requires p % 8 == 0 && s % 8 == 0 && p < s
    ensures p + 8 <= s
  {}

  lemma {:induction false} ScanExact(m: Memory, p: nat, end: nat, s: nat)
    requires p % 8 == 0
    ensures s in Scan(m, p, end) <==> s % 8 == 0 && p <= s && s + 16 < end && IsSlot(m, s)
    decreases end - p
  {
    hide IsSlot, Le;
    AlignedStep(p);
    if p + 16 < end {
      ScanExact(m, p + 8, end, s);
      if s % 8 == 0 && p < s {
        NextAligned(p, s);
      }
    }
  }

  lemma AlignUpLeast(a: nat, s: nat)
    ensures AlignUp8(a) % 8 == 0
    ensures s % 8 == 0 ==> (a <= s <==> AlignUp8(a) <= s)
  {
    var q, t := a / 8, s / 8;
    assert a == 8 * q + a % 8 && s == 8 * t + s % 8;
    var up := if a % 8 == 0 then q else q + 1;
    assert AlignUp8(a) == 8 * up;
    DivModUnique(8 * up, 8, up, 0);
  }

  // scan_memory reports exactly the aligned addresses holding a recognised slot that ends below end.
  lemma ScanMemoryExact(m: Memory, begin: nat, end: nat, s: nat)
    ensures s in ScanMemory(m, begin, end) <==> s % 8 == 0 && begin <= s && s + 16 < end && IsSlot(m, s)
  {
    AlignUpLeast(begin, s);
    ScanExact(m, AlignUp8(begin), end, s);
  }

  lemma ScanFirst(m: Memory, p: nat, end: nat, s: nat)
    requires p % 8 == 0 && IsSlot(m, p) && s in Scan(m, p + 8, end)
    ensures p + 16 <= s
  {
    AlignedStep(p);
    ScanExact(m, p + 8, end, s);
    SlotsApart(m, p);
    if p + 8 < s {
      NextAligned(p + 8, s);
    }
  }

  // Two reported slots never share a byte: they come lowest first, 16 bytes apart or more.
  lemma {:induction false} ScanSeparated(m: Memory, p: nat, end: nat, i: nat, j: nat)
    requires p % 8 == 0 && i < j < |Scan(m, p, end)|
    ensures Scan(m, p, end)[i] + 16 <= Scan(m, p, end)[j]
    decreases end - p
  {
    hide IsSlot;
    AlignedStep(p);
    var rest := Scan(m, p + 8, end);
    if IsSlot(m, p) {
      if i == 0 {
        ScanFirst(m, p, end, rest[j - 1]);
      } else {
        ScanSeparated(m, p + 8, end, i - 1, j - 1);
      }
    } else {
      ScanSeparated(m, p + 8, end, i, j);
    }
  }
}
