/** The kernel heap (src/kheap.c): a bump allocator that never frees. Pointers are
    offsets from the start of the heap. */
module KHeap {
  import opened Arithmetic

  const WORD: nat := 0x1_0000_0000_0000_0000  // size_t wraps around here

  /** An unsigned 64-bit sum. */
  function Wrap(v: nat): nat {
    v % 0x1_0000_0000_0000_0000
  }

  lemma WrapOnce(v: nat)
    requires v < 2 * WORD
    ensures Wrap(v) == if v < WORD then v else v - WORD
  {
  }

  datatype Ptr = Null | At(offset: nat)

  // ----- rounding up with a bit mask

  function BitAnd(x: nat, y: nat): nat {
    if x == 0 || y == 0 then 0
    else (if x % 2 == 1 && y % 2 == 1 then 1 else 0) + 2 * BitAnd(x / 2, y / 2)
  }

  function Pow2(k: nat): nat {
    if k == 0 then 1 else 2 * Pow2(k - 1)
  }

  function BitNot(x: nat): nat
    requires x < WORD
  {
    0xFFFF_FFFF_FFFF_FFFF - x
  }

  /** (x + a - 1) & ~(a - 1) on 64 bits */
  function AlignUp(x: nat, a: nat): nat
    requires 1 <= a <= WORD
  {
    BitAnd(Wrap(x + a - 1), BitNot(a - 1))
  }

  function RoundUp16(n: nat): nat {
    (n + 15) / 16 * 16
  }

  /** The least multiple of 16 that is not below n. */
  lemma RoundsUp(n: nat)
    ensures RoundUp16(n) % 16 == 0 && n <= RoundUp16(n) < n + 16
  {
  }

  lemma Pow2Positive(k: nat)
    ensures Pow2(k) >= 1
  {
  }

  lemma HalfMod(x: nat, m: nat)
    requires m > 0
    ensures x % (2 * m) == 2 * (x / 2 % m) + x % 2
  {
    var h := x / 2;
    var q, r := h / m, h % m;
    assert x == 2 * (m * q + r) + x % 2;
    assert x == q * (2 * m) + (2 * r + x % 2);
    DivModUnique(x, 2 * m, q, 2 * r + x % 2);
  }

  /** The mask with ones from bit k to bit w - 1 clears the low k bits. */
  lemma {:induction false} MaskClearsLowBits(x: nat, k: nat, w: nat)
    requires k <= w && x < Pow2(w)
    ensures 1 <= Pow2(k) <= Pow2(w)
    ensures BitAnd(x, Pow2(w) - Pow2(k)) == x - x % Pow2(k)
    decreases w
  {
    if k > 0 {
      MaskClearsLowBits(x / 2, k - 1, w - 1);
      var low := Pow2(k - 1);
      HalfMod(x, low);
      OneBitMore(x, Pow2(w - 1) - low, x / 2, x / 2 % low, x % (2 * low));
    } else {
      AllOnes(x, w);
    }
  }

  /** One more low bit to clear: h is half of x, and `rem` what is cleared of x. */
  lemma OneBitMore(x: nat, mask: nat, h: nat, r: nat, rem: nat)
    requires h == x / 2 && r <= h && BitAnd(h, mask) == h - r && rem == 2 * r + x % 2
    ensures BitAnd(x, 2 * mask) == x - rem
  {
    EvenMask(x, mask);
  }

  lemma EvenMask(x: nat, m: nat)
    ensures BitAnd(x, 2 * m) == 2 * BitAnd(x / 2, m)
  {
  }

  lemma {:induction false} AllOnes(x: nat, w: nat)
    requires x < Pow2(w)
    ensures 1 <= Pow2(w) && BitAnd(x, Pow2(w) - 1) == x
  {
    Pow2Positive(w);
    if w > 0 {
      AllOnes(x / 2, w - 1);
    }
  }

  lemma Pow2Values()
    ensures Pow2(4) == 16 && Pow2(64) == WORD
  {
    assert Pow2(8) == 256;
    assert Pow2(16) == 0x1_0000;
    assert Pow2(24) == 0x100_0000;
    assert Pow2(32) == 0x1_0000_0000;
    assert Pow2(40) == 0x100_0000_0000;
    assert Pow2(48) == 0x1_0000_0000_0000;
    assert Pow2(56) == 0x100_0000_0000_0000;
  }

  /** The mask rounds up, except that the largest sizes wrap around to zero. */
  lemma AlignUpRounds(n: nat)
    requires n < WORD
    ensures AlignUp(n, 16) == if n <= WORD - 16 then RoundUp16(n) else 0
  {
    var x := Wrap(n + 15);
    WrapOnce(n + 15);
    Pow2Values();
    MaskClearsLowBits(x, 4, 64);
    assert BitNot(15) == Pow2(64) - Pow2(4);
    ClearLowBits(n, x);
  }

  lemma ClearLowBits(n: nat, x: nat)
    requires n < WORD && x == if n + 15 < WORD then n + 15 else n + 15 - WORD
    ensures x - x % 16 == if n <= WORD - 16 then RoundUp16(n) else 0
  {
  }

  // ----- allocation

  /** What kmalloc does to `used`, or None when it returns a null pointer. */
  datatype Alloc = Refused | Granted(used: nat)

  function Kmalloc(used: nat, total: nat, n: nat): Alloc {
    var size := AlignUp(n, 16);
    if Wrap(used + size) > total then Refused else Granted(Wrap(used + size))
  }

  /** Every outcome: a sum that wraps around is granted, and moves the mark back. */
  lemma KmallocOutcome(used: nat, total: nat, n: nat, size: nat)
    requires used <= total < WORD && n < WORD && size == RoundUp16(n)
    ensures Kmalloc(used, total, n) ==
      if used + size >= WORD then Granted(used + size - WORD)
      else if used + size > total then Refused
      else Granted(used + size)
  {
    var aligned := AlignUp(n, 16);
    AlignUpRounds(n);
    LargestRoundUp(n, size);
    var mark := WrappedMark(used, size, aligned);
    KmallocByMark(used, total, n, aligned, mark);
  }

  lemma KmallocByMark(used: nat, total: nat, n: nat, aligned: nat, mark: nat)
    requires aligned == AlignUp(n, 16) && mark == Wrap(used + aligned)
    ensures Kmalloc(used, total, n) == if mark > total then Refused else Granted(mark)
  {
  }

  lemma WrappedMark(used: nat, size: nat, aligned: nat) returns (mark: nat)
    requires used < WORD && size <= WORD && aligned == if size < WORD then size else 0
    ensures mark == Wrap(used + aligned)
    ensures mark == if used + size >= WORD then used + size - WORD else used + size
  {
    WrapOnce(used + aligned);
    mark := Wrap(used + aligned);
  }

  /** The sizes whose rounding up is 2^64 are those that the mask takes to 0. */
  lemma LargestRoundUp(n: nat, size: nat)
    requires n < WORD && size == RoundUp16(n)
    ensures size % 16 == 0 && if n <= WORD - 16 then size < WORD else size == WORD
  {
    RoundUpBounds(n);
    if n > WORD - 16 {
      DivModUnique(n + 15, 16, WORD / 16, n + 15 - WORD);
    }
  }

  /** The block lies inside the heap, after everything granted before, and the request
      is refused only when there is no room for it. */
  predicate Sound(used: nat, total: nat, n: nat) {
    match Kmalloc(used, total, n)
    case Refused => used + RoundUp16(n) > total
    case Granted(after) => used + n <= after <= total && after % 16 == used % 16 && after < used + n + 16
  }

  /** The allocator is right exactly when the rounded request does not pass the end of
      the address space. */
  lemma SoundUnlessWrapped(used: nat, total: nat, n: nat)
    requires used <= total < WORD && n < WORD
    ensures Sound(used, total, n) <==> used + RoundUp16(n) < WORD
  {
    var size := RoundUp16(n);
    KmallocOutcome(used, total, n, size);
    RoundUpBounds(n);
    AddMultiple(used, size);
  }

  lemma AddMultiple(used: nat, size: nat)
    requires size % 16 == 0
    ensures (used + size) % 16 == used % 16
  {
  }

  lemma RoundUpBounds(n: nat)
    ensures n <= RoundUp16(n) < n + 16 && RoundUp16(n) % 16 == 0
  {
  }

  lemma MarkIsMultiple(used: nat, size: nat)
    requires used % 16 == 0 && size % 16 == 0
    ensures (used + size) % 16 == 0 && (used + size >= WORD ==> (used + size - WORD) % 16 == 0)
  {
    var p, q := used / 16, size / 16;
    assert used == p * 16 && size == q * 16;
    DivModUnique(used + size, 16, p + q, 0);
    if used + size >= WORD {
      DivModUnique(used + size - WORD, 16, p + q - 0x1000_0000_0000_0000, 0);
    }
  }

  /** Where the mark goes, if it may. */
  lemma NextMark(used: nat, total: nat, n: nat, size: nat, mark: nat)
    requires used <= total < WORD && n < WORD && used % 16 == 0
    requires size == RoundUp16(n) && mark == Wrap(used + AlignUp(n, 16))
    ensures mark % 16 == 0 && mark == if used + size >= WORD then used + size - WORD else used + size
  {
    RoundsUp(n);
    AlignUpRounds(n);
    LargestRoundUp(n, size);
    hide RoundUp16, AlignUp;
    MarkIsMultiple(used, size);
    var wrapped := WrappedMark(used, size, AlignUp(n, 16));
  }

  class Heap {
    const mem: array<char>
    const total: nat
    var used: nat

    ghost predicate Valid()
      reads this
    {
      && used <= total == mem.Length <= 0x100_0000
      && used % 16 == 0
    }

    /** kheap_init, for a machine of `memKb` KiB (0 when unknown) */
    constructor (memKb: nat)
      requires memKb < 0x1_0000_0000
      ensures Valid() && used == 0 && total == HeapSize(memKb) && fresh(mem)
    {
      used := 0;
      total := HeapSize(memKb);
      mem := new char[HeapSize(memKb)];
    }

    /** A request that wraps around is granted the old mark, too, and moves it back. */
    method Kmalloc(n: nat) returns (p: Ptr)
      requires Valid() && n < WORD
      modifies this`used
      ensures Valid()
      ensures var after := old(used) + RoundUp16(n);
        if after >= WORD then p == At(old(used)) && used == after - WORD
        else if after > total then p == Null && used == old(used)
        else p == At(old(used)) && used == after
    {
      var size := AlignUp(n, 16);
      var mark := Wrap(used + size);
      NextMark(used, total, n, RoundUp16(n), mark);
      if mark > total {
        return Null;
      }
      p := At(used);
      used := mark;
    }

    /** memcpy from outside the heap */
    method CopyIn(dst: nat, src: seq<char>)
      requires dst + |src| <= mem.Length
      modifies mem
      ensures mem[dst..dst + |src|] == src
      ensures forall k {:trigger mem[k]} :: 0 <= k < mem.Length && !(dst <= k < dst + |src|) ==> mem[k] == old(mem[k])
    {
      for i := 0 to |src|
        invariant forall k {:trigger mem[k]} :: dst <= k < dst + i ==> mem[k] == src[k - dst]
        invariant forall k {:trigger mem[k]} :: 0 <= k < mem.Length && !(dst <= k < dst + i) ==> mem[k] == old(mem[k])
      {
        mem[dst + i] := src[i];
      }
    }

    /** memcpy between two blocks that do not overlap */
    method Copy(dst: nat, src: nat, n: nat)
      requires dst + n <= mem.Length && src + n <= dst
      modifies mem
      ensures mem[dst..dst + n] == old(mem[src..src + n])
      ensures forall k {:trigger mem[k]} :: 0 <= k < mem.Length && !(dst <= k < dst + n) ==> mem[k] == old(mem[k])
    {
      for i := 0 to n
        invariant forall k {:trigger mem[k]} :: dst <= k < dst + i ==> mem[k] == old(mem[k - dst + src])
        invariant forall k {:trigger mem[k]} :: 0 <= k < mem.Length && !(dst <= k < dst + i) ==> mem[k] == old(mem[k])
      {
        mem[dst + i] := mem[src + i];
      }
    }
  }

  // ----- the size of the heap

  const HEAP_START: nat := 0x100_0000
  const HEAP_MAX: nat := 0x200_0000

  function HeapSize(memKb: nat): nat {
    var mem := memKb * 1024;
    if memKb == 0 || mem > HEAP_START + (HEAP_MAX - HEAP_START) then HEAP_MAX - HEAP_START
    else if mem > HEAP_START + 0x10_0000 then mem - HEAP_START - 0x10_0000
    else 0x10_0000
  }

  /** A known memory holds the whole heap exactly from 17 MiB on. */
  lemma HeapFitsMemory(memKb: nat)
    requires memKb > 0
    ensures HeapSize(memKb) <= HEAP_MAX - HEAP_START
    ensures HEAP_START + HeapSize(memKb) <= memKb * 1024 <==> memKb >= 17 * 1024
  {
  }

  /** The size in bytes: 16 MiB for an unknown memory or one beyond 32 MiB, the least heap
      up to 17 MiB, and in between all but the first 16 MiB and the last one. */
  lemma HeapSizeIs(memKb: nat)
    ensures memKb == 0 || memKb > 32768 ==> HeapSize(memKb) == 16777216
    ensures 0 < memKb <= 17408 ==> HeapSize(memKb) == 1048576
    ensures 17408 < memKb <= 32768 ==> HeapSize(memKb) == memKb * 1024 - 17825792
  {
  }

  /** One MiB is left free above the heap between 17 and 32 MiB and from 33 MiB on; with
      32 MiB and a little more the heap takes some of it. */
  lemma LeavesLastMiB(memKb: nat)
    requires memKb > 0
    ensures 16777216 + HeapSize(memKb) + 1048576 <= memKb * 1024 <==> 17408 < memKb <= 32768 || memKb >= 33792
  {
    HeapSizeIs(memKb);
  }
}
