/**
 seq_cst_cpy (src/concurrent_gc.cpp): a copy in chunks of 8, 4, 2 or 1 bytes, the
 widest one the *source* address is aligned for. The last chunk may reach past the
 size asked for, so more bytes than that can be read and written.
 */
module AtomicCopy {
  import opened Bits
  import opened FatPtrs

  predicate IsAlignedTo(a: nat, alignment: nat)
    requires alignment > 0
  {
    And(a, alignment - 1) == 0
  }

  function Width(a: nat): (w: nat)
    ensures w == 8 || w == 4 || w == 2 || w == 1
  {
    if IsAlignedTo(a, 8) then 8 else if IsAlignedTo(a, 4) then 4 else if IsAlignedTo(a, 2) then 2 else 1
  }

  function MovedByte(m: Memory, dst: nat, src: nat, w: nat, i: nat): Byte
    requires i < |m|
  {
    if dst <= i < dst + w then At(m, src + i - dst) else m[i]
  }

  // One chunk: w bytes loaded from src in one access, then stored to dst in one access.
  function Move(m: Memory, dst: nat, src: nat, w: nat): (r: Memory)
    ensures |r| == |m|
  {
    seq(|m|, i requires 0 <= i < |m| => MovedByte(m, dst, src, w, i))
  }

  function CopyFrom(m: Memory, dst: nat, src: nat, size: nat, i: nat): (r: Memory)
    ensures |r| == |m|
    decreases size - i
  {
    if i >= size then m
    else
      var w := Width(src + i);
      CopyFrom(Move(m, dst + i, src + i, w), dst, src, size, i + w)
  }

  function Copy(m: Memory, dst: nat, src: nat, size: nat): (r: Memory)
    ensures |r| == |m|
  {
    CopyFrom(m, dst, src, size, 0)
  }

  // How many bytes the copy moves.
  function Reach(src: nat, size: nat, i: nat): (e: nat)
    ensures e >= i
    decreases size - i
  {
    if i >= size then i else Reach(src, size, i + Width(src + i))
  }

  // How many bytes a whole copy writes.
  function Written(src: nat, size: nat): nat {
    Reach(src, size, 0)
  }

  // At least what was asked for, at most what completes the source's last 8-byte block.
  lemma WrittenBounds(src: nat, size: nat)
    ensures size <= Written(src, size) <= size + 7 && src + Written(src, size) <= AlignUp8(src + size)
  {
    ReachBounds(src, size, 0);
    AlignUpLeast(src + size, 0);
  }

  lemma MaskIsRemainder(a: nat)
    ensures And(a, 7) == a % 8 && And(a, 3) == a % 4 && And(a, 1) == a % 2
  {
    assert Pow2(0) == 1 && Pow2(1) == 2 && Pow2(2) == 4 && Pow2(3) == 8;
    AndLowMask(a, 3);
    AndLowMask(a, 2);
    AndLowMask(a, 1);
  }

  // A chunk never leaves the 8-byte block its source address lies in.
  lemma ChunkInBlock(a: nat)
    ensures a % 8 + Width(a) <= 8
  {
    MaskIsRemainder(a);
  }

  lemma ChunkInAlignUp(a: nat, end: nat)
    requires a < end
    ensures a + Width(a) <= AlignUp8(end)
  {
    hide Width, AlignUp8;
    ChunkInBlock(a);
    BlockStart(a);
    LastBlock(end, a - a % 8);
  }

  lemma BlockStart(a: nat)
    ensures (a - a % 8) % 8 == 0
  {
    var q := a / 8;
    assert a == 8 * q + a % 8;
  }

  lemma LastBlock(end: nat, block: nat)
    requires block % 8 == 0 && block < end
    ensures block + 8 <= AlignUp8(end) && (end <= block + 8 ==> AlignUp8(end) == block + 8)
  {
    hide AlignUp8;
    AlignUpLeast(end, block);
    AlignedStep(block);
    AlignUpLeast(end, block + 8);
    NextAligned(block, AlignUp8(end));
  }

  // The copy moves at least size bytes and at most up to the end of the source's last 8-byte block.
  lemma {:induction false} ReachBounds(src: nat, size: nat, i: nat)
    requires i <= size || src + i <= AlignUp8(src + size)
    ensures size <= Reach(src, size, i)
    ensures src + Reach(src, size, i) <= AlignUp8(src + size)
    decreases size - i
  {
    if i < size {
      ChunkInAlignUp(src + i, src + size);
      ReachBounds(src, size, i + Width(src + i));
    } else if i == size {
      AlignUpLeast(src + size, 0);
    }
  }

  // The chunk taken at an address is the widest power of two, up to 8, that divides the address.
  lemma WidthExact(a: nat)
    ensures var w := Width(a); a % w == 0 && (w == 8 || a % (2 * w) != 0)
  {
    MaskIsRemainder(a);
  }

  lemma WidthByResidue(a: nat)
    ensures Width(a) == match a % 8
                        case 0 => 8
                        case 2 | 6 => 2
                        case 4 => 4
                        case _ => 1
  {
    MaskIsRemainder(a);
  }

  // Once at the start of a source word the copy goes on in whole words.
  lemma {:induction false} ReachAligned(src: nat, size: nat, i: nat)
    requires (src + i) % 8 == 0 && src + i <= AlignUp8(src + size)
    ensures src + Reach(src, size, i) == AlignUp8(src + size)
    decreases size + 8 - i
  {
    hide Width;
    AlignUpLeast(src + size, src + i);
    if i < size {
      WidthByResidue(src + i);
      AlignedStep(src + i);
      NextAligned(src + i, AlignUp8(src + size));
      ReachAligned(src, size, i + 8);
    }
  }

  // Where in an 8-byte block a copy ends that starts at `from` in it and is to reach `end` in it: at the
  // first of the block's chunk boundaries from there on that is not before `end`.
  function BlockEnd(from: nat, end: nat): nat {
    match from
    case 1 => if end <= 2 then 2 else if end <= 4 then 4 else 8
    case 2 | 3 => if end <= 4 then 4 else 8
    case 5 => if end <= 6 then 6 else 8
    case _ => 8
  }

  lemma {:induction false} ReachInBlock(src: nat, size: nat, i: nat)
    requires i < size
    ensures var q := (src + i) % 8;
      src + Reach(src, size, i) ==
      if q + (size - i) > 8 then AlignUp8(src + size) else src + i - q + BlockEnd(q, q + (size - i))
    decreases size - i
  {
    hide Width, AlignUp8;
    var q := (src + i) % 8;
    var w := Width(src + i);
    WidthByResidue(src + i);
    AlignUpLeast(src + size, src + i - q + 8);
    StepInBlock(src + i, w, q);
    if q + w == 8 {
      LastBlock(src + size, src + i - q);
      ReachAligned(src, size, i + w);
    } else if i + w < size {
      ReachInBlock(src, size, i + w);
    }
  }

  lemma StepInBlock(a: nat, w: nat, q: nat)
    requires q == a % 8 && q + w <= 8
    ensures (a - q) % 8 == 0 && (a - q + 8) % 8 == 0 && (a + w) % 8 == if q + w == 8 then 0 else q + w
  {
    var b := a / 8;
    assert a == 8 * b + q;
    if q + w == 8 {
      DivModUnique(a + w, 8, b + 1, 0);
    } else {
      DivModUnique(a + w, 8, b, q + w);
    }
  }

  // How many bytes a copy writes, for every source address and size: none for size 0, up to the end of
  // the source word the last byte lies in when the source starts at a word or leaves the word it starts
  // in, and otherwise up to a chunk boundary inside that word.
  lemma WrittenExactly(src: nat, size: nat)
    ensures var n := Written(src, size); var r := src % 8;
      if size == 0 then n == 0
      else if r == 0 || r + size > 8 then (src + n) % 8 == 0 && size <= n < size + 8
      else if r == 1 && r + size <= 2 then r + n == 2
      else if 1 <= r <= 3 && r + size <= 4 then r + n == 4
      else if r == 5 && r + size <= 6 then r + n == 6
      else r + n == 8
  {
    hide Width, Reach;
    AlignUpLeast(src + size, 0);
    if size > 0 {
      ReachInBlock(src, size, 0);
      if src % 8 == 0 && size <= 8 {
        StepInBlock(src, 8, 0);
      }
    } else {
      NothingToMove(src);
    }
  }

  lemma NothingToMove(src: nat)
    ensures Written(src, 0) == 0
  {}

  // The bytes moved, and only those, arrive at dst, each as it was at the start.
  lemma {:induction false} CopyFromEffect(m: Memory, dst: nat, src: nat, size: nat, i: nat)
    requires i <= size || src + i <= AlignUp8(src + size)
    requires var e := Reach(src, size, i); dst + e <= |m| && (src + e <= dst || dst + e <= src)
    ensures var r := CopyFrom(m, dst, src, size, i); var e := Reach(src, size, i);
      && SameExcept(m, r, dst + i, e - i)
      && SameBytes(m, src + i, r, dst + i, e - i)
    decreases size - i
  {
    hide Width, IsAlignedTo, Move, AlignUp8, SameBytes, SameExcept;
    var r, e := CopyFrom(m, dst, src, size, i), Reach(src, size, i);
    if i >= size {
      MovedNothing(m, dst + i, src + i);
    } else {
      var w := Width(src + i);
      var m1 := Move(m, dst + i, src + i, w);
      assert r == CopyFrom(m1, dst, src, size, i + w) && e == Reach(src, size, i + w);
      ChunkInAlignUp(src + i, src + size);
      MoveEffect(m, dst + i, src + i, w);
      CopyFromEffect(m1, dst, src, size, i + w);
      Chain(m, m1, r, dst + i, src + i, w, e - i);
    }
  }

  lemma MovedNothing(m: Memory, dst: nat, src: nat)
    ensures SameExcept(m, m, dst, 0) && SameBytes(m, src, m, dst, 0)
  {}

  lemma MoveEffect(m: Memory, dst: nat, src: nat, w: nat)
    requires dst + w <= |m|
    ensures SameExcept(m, Move(m, dst, src, w), dst, w)
    ensures SameBytes(m, src, Move(m, dst, src, w), dst, w)
  {}

  // A move of w bytes followed by a move of the rest is one move of n bytes.
  lemma Chain(m: Memory, m1: Memory, r: Memory, dst: nat, src: nat, w: nat, n: nat)
    requires w <= n && (src + n <= dst || dst + n <= src)
    requires SameExcept(m, m1, dst, w) && SameBytes(m, src, m1, dst, w)
    requires SameExcept(m1, r, dst + w, n - w) && SameBytes(m1, src + w, r, dst + w, n - w)
    ensures SameExcept(m, r, dst, n) && SameBytes(m, src, r, dst, n)
  {
    forall a | !(dst <= a < dst + n)
      ensures At(r, a) == At(m, a)
    {
      assert At(r, a) == At(m1, a);
    }
    forall a | src <= a < src + n
      ensures At(m, a) == At(r, a + (dst - src))
    {
      if a < src + w {
        assert At(m, a) == At(m1, a + (dst - src));
        assert At(r, a + (dst - src)) == At(m1, a + (dst - src));
      } else {
        assert At(m1, a) == At(r, a + (dst + w - (src + w)));
        assert At(m1, a) == At(m, a);
      }
    }
  }

  // What one whole copy does when source and destination blocks are disjoint.
  lemma CopyEffect(m: Memory, dst: nat, src: nat, size: nat)
    requires var l := Written(src, size); dst + l <= |m| && (dst + l <= src || AlignUp8(src + size) <= dst)
    ensures var r := Copy(m, dst, src, size);
      && SameExcept(m, r, dst, Written(src, size))
      && SameBytes(m, src, r, dst, size)
  {
    ReachBounds(src, size, 0);
    CopyFromEffect(m, dst, src, size, 0);
  }

  lemma StaysWithin(src: nat, size: nat, i: nat)
    requires i < size
    ensures i + Width(src + i) <= size + 7
  {
    ChunkInAlignUp(src + i, src + size);
    AlignUpLeast(src + size, 0);
  }

  method SeqCstCpy(mem: array<Byte>, dst: nat, src: nat, size: nat)
    requires src + size + 7 <= mem.Length && dst + size + 7 <= mem.Length
    modifies mem
    ensures mem[..] == Copy(old(mem[..]), dst, src, size)
  {
    hide Width, IsAlignedTo, Move;
    var i := 0;
    while i < size
      invariant i <= size + 7
      invariant CopyFrom(mem[..], dst, src, size, i) == Copy(old(mem[..]), dst, src, size)
    {
      var w := Width(src + i);
      StaysWithin(src, size, i);
      MoveChunk(mem, dst + i, src + i, w);
      i := i + w;
    }
  }

  method MoveChunk(mem: array<Byte>, dst: nat, src: nat, w: nat)
    requires src + w <= mem.Length && dst + w <= mem.Length
    modifies mem
    ensures mem[..] == Move(old(mem[..]), dst, src, w)
  {
    forall i | 0 <= i < w {
      mem[dst + i] := mem[src + i];
    }
  }
}
