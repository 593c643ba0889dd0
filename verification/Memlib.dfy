/** The simulated memory system of ASSN6/memlib.c. */
module Memlib {
  import opened Bits
  import opened HeapLayout

  const SBRK_FAILED := -1

  /** The heap area as 4-byte words.  `brk` is `mem_brk - mem_start_brk`, in bytes; the area
      itself starts at an 8-aligned address. */
  class Memory {
    const words: array<Word32>
    var brk: int

    ghost predicate Valid()
      reads this
    {
      words.Length == HEAP_WORDS && 0 <= brk <= MAX_HEAP
    }

    /** `mem_init`: the contents of the new area are arbitrary. */
    constructor ()
      ensures Valid() && fresh(words) && brk == 0
    {
      words := new Word32[HEAP_WORDS];
      brk := 0;
    }

    /** `mem_reset_brk`: empties the heap and leaves the words as they are. */
    method ResetBrk()
      requires Valid()
      modifies `brk
      ensures Valid() && brk == 0
    {
      brk := 0;
    }

    /** `mem_sbrk`: the old break, or SBRK_FAILED if the increment is negative or does not fit. */
    method Sbrk(incr: int) returns (r: int)
      requires Valid()
      modifies `brk
      ensures Valid()
      ensures r == SBRK_FAILED <==> incr < 0 || old(brk) + incr > MAX_HEAP
      ensures r == SBRK_FAILED ==> brk == old(brk)
      ensures r != SBRK_FAILED ==> r == old(brk) && brk == old(brk) + incr
    {
      var oldBrk := brk;
      if incr < 0 || brk + incr > MAX_HEAP {
        return SBRK_FAILED;
      }
      brk := brk + incr;
      return oldBrk;
    }

    /** `mem_heapsize` */
    function HeapSize(): int
      reads this
    {
      brk
    }
  }
}
