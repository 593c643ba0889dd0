/** The operations of ASSN6/mm.c on block sequences, and what they keep. */
module HeapSpec {
  import opened Options
  import opened HeapLayout

  // ---------------------------------------------------------------- searching

  function IndexOf(bs: seq<Block>, p: int): (k: nat)
    requires Boundary(bs, p)
    ensures k < |bs| && bs[k].start == p
  {
    if bs[0].start == p then 0
    else
      assert bs == [bs[0]] + bs[1..];
      1 + IndexOf(bs[1..], p)
  }

  predicate Fits(b: Block, need: int) {
    !b.alloc && need <= b.len
  }

  /** The first block at index i or later that fits. */
  function FirstFit(bs: seq<Block>, i: nat, need: int): (r: Option<nat>)
    requires i <= |bs|
    ensures r.Some? ==> i <= r.value < |bs|
    decreases |bs| - i
  {
    if i == |bs| then None
    else if Fits(bs[i], need) then Some(i)
    else FirstFit(bs, i + 1, need)
  }

  /** The best candidate after scanning the first k blocks: a later block replaces an
      earlier one only if it is strictly smaller. */
  function BestFit(bs: seq<Block>, k: nat, need: int): (r: Option<nat>)
    requires k <= |bs|
    ensures r.Some? ==> r.value < k
  {
    if k == 0 then None
    else
      var best := BestFit(bs, k - 1, need);
      if Fits(bs[k - 1], need) && (best.None? || bs[k - 1].len < bs[best.value].len)
      then Some(k - 1) else best
  }

  /** The chosen block, and where the search leaves the rover. */
  function FindFit(h: Heap, need: int): (Option<nat>, int)
    requires Boundary(h.blocks, h.rover)
  {
    var k := IndexOf(h.blocks, h.rover);
    match FirstFit(h.blocks, k, need)
    case Some(i) => (Some(i), h.blocks[i].start)
    case None => (BestFit(h.blocks, k, need), h.rover)
  }

  predicate AnyFit(bs: seq<Block>, need: int) {
    exists b :: b in bs && Fits(b, need)
  }

  lemma {:induction false} FirstFitIsFirst(bs: seq<Block>, i: nat, need: int)
    requires i <= |bs|
    ensures var r := FirstFit(bs, i, need);
            if r.None? then forall j :: i <= j < |bs| ==> !Fits(bs[j], need)
            else Fits(bs[r.value], need) && forall j :: i <= j < r.value ==> !Fits(bs[j], need)
    decreases |bs| - i
  {
    if i < |bs| && !Fits(bs[i], need) {
      FirstFitIsFirst(bs, i + 1, need);
    }
  }

  lemma {:induction false} BestFitIsBest(bs: seq<Block>, k: nat, need: int)
    requires k <= |bs|
    ensures var r := BestFit(bs, k, need);
            if r.None? then forall j :: 0 <= j < k ==> !Fits(bs[j], need)
            else Fits(bs[r.value], need)
                 && (forall j :: 0 <= j < k && Fits(bs[j], need) ==> bs[r.value].len <= bs[j].len)
                 && (forall j :: 0 <= j < r.value && Fits(bs[j], need) ==> bs[r.value].len < bs[j].len)
  {
    if k > 0 {
      BestFitIsBest(bs, k - 1, need);
    }
  }

  /** `find_fit` is complete and follows its policy: it fails exactly when nothing fits;
      it prefers the first fit at or after the rover, and moves the rover there; otherwise
      it takes the leftmost smallest fit before the rover and leaves the rover alone. */
  lemma FindFitPolicy(h: Heap, need: int)
    requires Inv(h)
    ensures var (r, rover) := FindFit(h, need); var bs := h.blocks;
            && Boundary(bs, rover)
            && (r.None? <==> !AnyFit(bs, need))
            && (r.Some? ==> r.value < |bs| && Fits(bs[r.value], need))
            && ((exists b :: b in bs && b.start >= h.rover && Fits(b, need)) ==>
                  && r.Some? && bs[r.value].start >= h.rover && rover == bs[r.value].start
                  && forall b :: b in bs && b.start >= h.rover && Fits(b, need) ==> bs[r.value].start <= b.start)
            && ((forall b :: b in bs && b.start >= h.rover ==> !Fits(b, need)) ==>
                  && rover == h.rover
                  && (r.Some? ==>
                        && bs[r.value].start < h.rover
                        && forall b :: b in bs && Fits(b, need) ==>
                             bs[r.value].len < b.len || (bs[r.value].len == b.len && bs[r.value].start <= b.start)))
  {
    hide Wf, NoTwoFree;
    var bs := h.blocks;
    var k := IndexOf(bs, h.rover);
    FirstFitIsFirst(bs, k, need);
    BestFitIsBest(bs, k, need);
    var r := FindFit(h, need).0;
    forall j | 0 <= j < |bs| && Fits(bs[j], need)
      ensures r.Some?
      ensures bs[j].start >= h.rover <==> j >= k
      ensures r.value < |bs| && (j < r.value ==> bs[j].start < bs[r.value].start)
      ensures r.value < j ==> bs[r.value].start < bs[j].start
    {
      if j < k { StartsOrdered(bs, j, k); }
      if k < j { StartsOrdered(bs, k, j); }
      if j < r.value { StartsOrdered(bs, j, r.value); }
      if r.value < j { StartsOrdered(bs, r.value, j); }
    }
    if r.Some? {
      if r.value < k { StartsOrdered(bs, r.value, k); }
      if k < r.value { StartsOrdered(bs, k, r.value); }
      assert bs[r.value] in bs;
    }
  }

  // ---------------------------------------------------------------- changing blocks

  /** `place`: allocate block k, splitting off the rest if it can be a block of its own. A size of 0,
      to which only a request above 2^32 - 16 is rounded, leaves the block free; what else it does
      to memory is beyond this level (see `Allocator.PlaceZero`). */
  function Placed(b: Block, need: int): (r: seq<Block>)
    ensures |r| > 0
  {
    if need == 0 then [b]
    else if b.len - need >= MIN_WORDS
    then [Block(b.start, need, true), Block(b.start + need, b.len - need, false)]
    else [Block(b.start, b.len, true)]
  }

  function Place(bs: seq<Block>, k: nat, need: int): seq<Block>
    requires k < |bs|
  {
    Splice(bs, k, k + 1, Placed(bs[k], need))
  }

  /** The run of blocks that merges with the free block k: indices first..last inclusive. */
  function MergeFirst(bs: seq<Block>, k: nat): (i: nat)
    requires k < |bs|
    ensures i <= k
  {
    if k > 0 && !bs[k - 1].alloc then k - 1 else k
  }

  function MergeLast(bs: seq<Block>, k: nat): (j: nat)
    requires k < |bs|
    ensures k <= j < |bs|
  {
    if k + 1 < |bs| && !bs[k + 1].alloc then k + 1 else k
  }

  function Merged(bs: seq<Block>, k: nat): Block
    requires k < |bs|
  {
    var first, last := bs[MergeFirst(bs, k)], bs[MergeLast(bs, k)];
    Block(first.start, last.End() - first.start, false)
  }

  /** A rover strictly inside a merged block moves to its start. */
  function SettledRover(rover: int, b: Block): int {
    if b.start < rover < b.End() then b.start else rover
  }

  /** `coalesce` of the free block k. */
  function Coalesce(h: Heap, k: nat): Heap
    requires k < |h.blocks|
  {
    var b := Merged(h.blocks, k);
    Heap(Splice(h.blocks, MergeFirst(h.blocks, k), MergeLast(h.blocks, k) + 1, [b]), SettledRover(h.rover, b))
  }

  function Freed(bs: seq<Block>, k: nat): seq<Block>
    requires k < |bs|
  {
    bs[k := bs[k].(alloc := false)]
  }

  /** `mm_free` of a payload address. */
  function Free(h: Heap, p: int): Heap
    requires p == NULL || Boundary(h.blocks, p)
  {
    if p == NULL then h
    else
      var k := IndexOf(h.blocks, p);
      Coalesce(Heap(Freed(h.blocks, k), h.rover), k)
  }

  /** `extend_heap`: a fresh free block of `words` words at the break, merged with a free
      last block; None when the heap area is exhausted. */
  function Extend(h: Heap, words: int): Option<Heap>
    requires h.blocks != []
  {
    if 4 * (Brk(h.blocks) + words) > MAX_HEAP then None
    else Some(Coalesce(Heap(h.blocks + [Block(Brk(h.blocks), words, false)], h.rover), |h.blocks|))
  }

  const WORD_RANGE := 0x1_0000_0000

  /** The byte size a request is rounded up to, in 32-bit unsigned arithmetic. */
  function AdjustedSize(n: nat): int {
    if n <= DSIZE then 2 * DSIZE
    else 8 * ((n + (DSIZE + (DSIZE - 1))) % 0x1_0000_0000 / 8)
  }

  function Need(n: nat): int { AdjustedSize(n) / 4 }

  function Max(a: int, b: int): int { if a > b then a else b }

  /** Finding or making room for `need` words: the new heap and the payload address, NULL if
      the heap area is exhausted. */
  function AllocateWords(h: Heap, need: int): (Heap, int)
    requires h.blocks != [] && Boundary(h.blocks, h.rover)
  {
    match FindFit(h, need)
    case (Some(k), rover) => (Heap(Place(h.blocks, k, need), rover), h.blocks[k].start)
    case (None, rover) =>
      match Extend(h, Max(need, CHUNKSIZE / 4))
      case None => (h, NULL)
      case Some(h1) =>
        var k := |h1.blocks| - 1;
        (Heap(Place(h1.blocks, k, need), h1.rover), h1.blocks[k].start)
  }

  /** `mm_malloc` */
  function Malloc(h: Heap, n: nat): (Heap, int)
    requires h.blocks != [] && Boundary(h.blocks, h.rover)
  {
    if n == 0 then (h, NULL) else AllocateWords(h, Need(n))
  }

  /** The block size, in bytes, that `mm_realloc` asks for. */
  function PaddedSize(n: nat): int { AdjustedSize(n) + PADDING }

  /** The last block, or the one before it where the last one is free */
  function LastAllocated(bs: seq<Block>): (k: nat)
    requires bs != []
    ensures k < |bs| <= k + 2
  {
    if bs[|bs| - 1].alloc || |bs| == 1 then |bs| - 1 else |bs| - 2
  }

  /** The bytes that growing block k of the heap to `padded` bytes takes from `mem_sbrk`: none
      if the block and the free block behind it suffice. */
  function Shortfall(bs: seq<Block>, k: nat, padded: int): int
    requires k < |bs|
  {
    var missing := padded - 4 * (Brk(bs) - bs[k].start);
    if missing <= 0 then 0 else Max(missing, CHUNKSIZE)
  }

  /** The growth path of `mm_realloc` for the last allocated block, up to the end of the heap */
  function GrowLast(h: Heap, n: nat): (Heap, int)
    requires h.blocks != []
  {
    var bs := h.blocks;
    var k := LastAllocated(bs);
    var extra := Shortfall(bs, k, PaddedSize(n));
    if 4 * Brk(bs) + extra > MAX_HEAP then (h, NULL)
    else (Heap(bs[..k] + [bs[k].(len := Brk(bs) + extra / 4 - bs[k].start)], h.rover), bs[k].start)
  }
}
