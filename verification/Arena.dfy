/** The bump allocator every page table comes from (src/memory/arena.c). */
module ArenaAllocator {
  import opened Words

  /** The address C calls NULL. */
  const NULL: u64 := 0

  class Arena {
    var base: u64
    var capacity: u64
    var used: u64

    /** The memory the arena was given does not wrap the address space. */
    ghost predicate Valid()
      reads this
    {
      && used <= capacity
      && base + capacity <= U64_LIMIT
      && (base == NULL ==> capacity == 0)
    }

    constructor (base: u64, capacity: u64)
      requires base + capacity <= U64_LIMIT
      ensures Valid()
      ensures this.base == base && used == 0
      ensures this.capacity == if base == NULL then 0 else capacity
    {
      this.base := base;
      this.capacity := if base == NULL then 0 else capacity;
      this.used := 0;
    }

    /** First-fit is exact: a block is handed out whenever the first aligned
        address past everything handed out so far leaves room for it, and that
        address is the one returned. The arithmetic is the C code's, modulo 2^64. */
    method AllocateAligned(size: u64, alignment: u64) returns (address: u64)
      requires Valid()
      modifies this`used
      ensures Valid()
      ensures address != NULL <==>
        PowerOfTwo(alignment) && size != 0 &&
        AlignUp(base + old(used), alignment) + size <= base + capacity
      ensures address != NULL ==>
        && address == AlignUp(base + old(used), alignment)
        && base + used == address + size
      ensures address == NULL ==> used == old(used)
    {
      hide AlignUp, Rounded, PowerOfTwo;
      if !PowerOfTwo(alignment) || size == 0 {
        return NULL;
      }
      var current := (base + used) % U64_LIMIT;
      var aligned := Rounded(current, alignment);
      RoundingIsExact(base + used, alignment);
      var padding := (aligned - current) % U64_LIMIT;
      PaddingIsExact(base + used, AlignUp(base + used, alignment));
      if padding + size >= U64_LIMIT {
        return NULL;
      }
      var needed := padding + size;
      if needed > capacity - used {
        return NULL;
      }
      used := used + needed;
      return aligned;
    }

    method Reset()
      requires Valid()
      modifies this`used
      ensures Valid() && used == 0
    {
      used := 0;
    }

    /** Where the arena stands, to come back to. */
    function Mark(): u64
      reads this
    {
      used
    }

    /** Everything handed out since the mark is taken back. A mark from before a reset
        that lies ahead of the arena is ignored. */
    method Release(mark: u64)
      requires Valid()
      modifies this`used
      ensures Valid() && used == if mark <= old(used) then mark else old(used)
    {
      if mark <= used {
        used := mark;
      }
    }

    /** What is allocated, given back and allocated again is the same block, and one
        that could not be had before can not be had again. */
    method AllocateReleaseAllocate(size: u64, alignment: u64) returns (first: u64, again: u64)
      requires Valid()
      modifies this`used
      ensures Valid() && first == again
    {
      var mark := Mark();
      first := AllocateAligned(size, alignment);
      Release(mark);
      again := AllocateAligned(size, alignment);
    }
  }

  /** `(current + (alignment - 1)) & ~(alignment - 1)` on 64-bit words. */
  function Rounded(current: u64, alignment: u64): (r: u64)
    requires PowerOfTwo(alignment)
  {
    var sum := (current + (alignment - 1)) % U64_LIMIT;
    AlignDownBounds(sum, alignment);
    AlignDownIsGreatest(sum, alignment, 0);
    AlignDown(sum, alignment)
  }

  lemma PaddingIsExact(value: int, aligned: int)
    requires 0 <= value <= aligned <= U64_LIMIT && aligned - value < U64_LIMIT
    ensures (aligned % U64_LIMIT - value % U64_LIMIT) % U64_LIMIT == aligned - value
  {
  }

  lemma WordSizeIsAligned(alignment: u64)
    requires PowerOfTwo(alignment)
    ensures alignment >= 1 && U64_LIMIT % alignment == 0
  {
    PowerIsPositive(alignment);
    WordSizeIsPower();
    PowerOfTwoDivides(alignment, 64);
  }

  lemma RoundedWithinSpace(value: int, alignment: u64)
    requires PowerOfTwo(alignment) && alignment >= 1
    requires 0 <= value && value + (alignment - 1) < U64_LIMIT
    ensures Rounded(value, alignment) == AlignUp(value, alignment)
  {
    hide AlignDown, PowerOfTwo;
    assert (value + (alignment - 1)) % U64_LIMIT == value + (alignment - 1);
  }

  lemma RoundedOutOfSpace(value: int, alignment: u64)
    requires PowerOfTwo(alignment) && alignment >= 1 && U64_LIMIT % alignment == 0
    requires 0 <= value <= U64_LIMIT <= value + (alignment - 1)
    ensures AlignUp(value, alignment) == U64_LIMIT
    ensures Rounded(value % U64_LIMIT, alignment) == 0
  {
    hide AlignDown, PowerOfTwo;
    AlignUpIsLeast(value, alignment, U64_LIMIT);
    AlignDownIsGreatest(value + (alignment - 1), alignment, U64_LIMIT);
    SmallAlignsToZero((value % U64_LIMIT + (alignment - 1)) % U64_LIMIT, alignment);
  }

  lemma SmallAlignsToZero(value: int, alignment: int)
    requires 0 <= value < alignment
    ensures AlignDown(value, alignment) == 0
  {
  }

  /** Rounding up within the address space is exact; rounding out of it lands
      on its very end, which reads as zero and which no block can start at. */
  lemma RoundingIsExact(value: int, alignment: u64)
    requires PowerOfTwo(alignment) && 0 <= value <= U64_LIMIT
    ensures alignment >= 1
    ensures value <= AlignUp(value, alignment) <= U64_LIMIT
    ensures AlignUp(value, alignment) - value < alignment
    ensures Rounded(value % U64_LIMIT, alignment) == AlignUp(value, alignment) % U64_LIMIT
  {
    hide AlignUp, Rounded, PowerOfTwo;
    WordSizeIsAligned(alignment);
    AlignUpBounds(value, alignment);
    if value + (alignment - 1) < U64_LIMIT {
      RoundedWithinSpace(value, alignment);
    } else {
      RoundedOutOfSpace(value, alignment);
    }
  }
}
