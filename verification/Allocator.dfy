/** The allocator of ASSN6/mm.c: boundary tags rewritten in place, with the block sequence of
    `HeapSpec` as its specification. */
module Allocator {
  import opened Options
  import opened Bits
  import opened Words
  import opened Memlib
  import opened HeapLayout
  import Spec = HeapSpec
  import opened HeapTheorems
  import opened HeapRuns
  import opened HeapImage

  // Pointer macros; a pointer is a word offset from the start of the heap area, and the
  // word that a macro fetches is passed to it.

  /** `HDRP(bp)` */
  function Hdrp(bp: int): int { bp - 1 }

  /** A byte count as a number of words */
  function InWords(size: int): int { size / 4 }

  /** `FTRP(bp)`, given the header of bp */
  function Ftrp(bp: int, header: Word32): int { bp + InWords(GetSize(header)) - 2 }

  /** `NEXT_BLKP(bp)`, given the header of bp */
  function NextBlkp(bp: int, header: Word32): int { bp + InWords(GetSize(header)) }

  /** `PREV_BLKP(bp)`, given the word at bp - DSIZE */
  function PrevBlkp(bp: int, footer: Word32): int { bp - InWords(GetSize(footer)) }

  /** The conversion from a 32-bit unsigned to a signed int. */
  function ToInt(x: int): int
    requires 0 <= x < Spec.WORD_RANGE
  {
    if x < 0x8000_0000 then x else x - Spec.WORD_RANGE
  }

  /** `ALIGN` on 32-bit unsigned ints */
  function Align(x: int): int
    requires 0 <= x < Spec.WORD_RANGE
  {
    var y := (x + 7) % 0x1_0000_0000;
    y - y % 8
  }

  /** Where the walk stands after k blocks: at the payload of block k, or at the break. */
  function Position(bs: seq<Block>, k: nat): int
    requires bs != []
  {
    if k < |bs| then bs[k].start else Brk(bs)
  }

  /** The macros read back what PACK put together. */
  lemma PackReads(words: int, alloc: int)
    requires 0 <= words <= HEAP_WORDS && Even(words) && 0 <= alloc <= 1
    ensures Aligned(4 * words) && InWords(4 * words) == words
    ensures GetSize(Pack(4 * words, alloc)) == 4 * words && GetTag(Pack(4 * words, alloc)) == 0
  {
    ReadHeader(words / 2, alloc, 4 * words + alloc);
  }

  lemma SumEven(a: int, b: int)
    requires Even(a) && Even(b)
    ensures Even(a + b) && Even(a - b)
  {
  }

  class Allocator {
    const memory: Memory
    var heapListp: int
    var currentBlock: int
    ghost var blocks: seq<Block>

    /** The tags in memory describe `blocks`, which fill the heap up to the break. */
    ghost predicate Stored()
      reads this, memory, memory.words
    {
      && memory.Valid()
      && Image(memory.words[..], blocks)
      && heapListp == blocks[0].start
      && memory.HeapSize() == 4 * Brk(blocks)
    }

    ghost predicate Mapped()
      reads this, memory, memory.words
    {
      Stored() && Boundary(blocks, currentBlock)
    }

    /** What holds between calls. */
    ghost predicate Valid()
      reads this, memory, memory.words
    {
      Mapped() && NoTwoFree(blocks)
    }

    ghost function State(): Heap
      reads this
    {
      Heap(blocks, currentBlock)
    }

    lemma InvHolds()
      requires Valid()
      ensures Inv(State()) && Image(memory.words[..], blocks)
    {
    }

    constructor (memory: Memory)
      ensures this.memory == memory && heapListp == NULL
    {
      this.memory := memory;
      heapListp := NULL;
      currentBlock := NULL;
      blocks := [];
    }

    /** The word before bp is the header of a block of b words. */
    ghost predicate Headed(bp: int, b: int)
      reads memory.words
    {
      && b > 1 && Even(b) && 0 <= bp - 1 && bp + b - 1 < memory.words.Length <= HEAP_WORDS
      && InWords(4 * b) == b
      && GetSize(memory.words[bp - 1]) == 4 * b && GetTag(memory.words[bp - 1]) == 0
    }

    /** The words at bp record a block of b words, whose neighbours do not matter here. */
    ghost predicate Recorded(bp: int, b: int)
      reads memory.words
    {
      Headed(bp, b) && GetSize(memory.words[bp + b - 2]) == 4 * b
    }

    /** `coalesce`, previous block allocated and next block free */
    method JoinNext(bp: int, ghost b: int, ghost n: int)
      requires Recorded(bp, b) && Recorded(bp + b, n)
      modifies memory.words
      ensures var joined := Block(bp, b + n, false);
              && Room(old(memory.words[..]), joined)
              && memory.words[..] == Retag(old(memory.words[..]), joined)
    {
      hide GetSize, GetTag, InWords, Even, Aligned;
      var w := memory.words;
      SumEven(b, n);
      PackReads(b + n, 0);
      var size := GetSize(w[Hdrp(bp)]) + GetSize(w[Hdrp(NextBlkp(bp, w[Hdrp(bp)]))]);
      assert size == 4 * (b + n);
      w[Hdrp(bp)] := WithTag(Pack(size, 0), w[Hdrp(bp)]);
      w[Ftrp(bp, w[Hdrp(bp)])] := WithTag(Pack(size, 0), w[Ftrp(bp, w[Hdrp(bp)])]);
    }

    /** `coalesce`, previous block free and next block allocated */
    method JoinPrev(bp: int, ghost p: int, ghost b: int) returns (r: int)
      requires Recorded(bp - p, p) && Recorded(bp, b)
      modifies memory.words
      ensures r == bp - p
      ensures var joined := Block(bp - p, p + b, false);
              && Room(old(memory.words[..]), joined)
              && memory.words[..] == Retag(old(memory.words[..]), joined)
    {
      hide GetSize, GetTag, InWords, Even, Aligned;
      var w := memory.words;
      SumEven(p, b);
      PackReads(p + b, 0);
      var size := GetSize(w[Hdrp(bp)]) + GetSize(w[Hdrp(PrevBlkp(bp, w[bp - 2]))]);
      assert size == 4 * (p + b);
      w[Ftrp(bp, w[Hdrp(bp)])] := WithTag(Pack(size, 0), w[Ftrp(bp, w[Hdrp(bp)])]);
      w[Hdrp(PrevBlkp(bp, w[bp - 2]))] := WithTag(Pack(size, 0), w[Hdrp(PrevBlkp(bp, w[bp - 2]))]);
      r := PrevBlkp(bp, w[bp - 2]);
    }

    /** `coalesce`, both neighbours free */
    method JoinBoth(bp: int, ghost p: int, ghost b: int, ghost n: int) returns (r: int)
      requires Recorded(bp - p, p) && Recorded(bp, b) && Recorded(bp + b, n)
      modifies memory.words
      ensures r == bp - p
      ensures var joined := Block(bp - p, p + b + n, false);
              && Room(old(memory.words[..]), joined)
              && memory.words[..] == Retag(old(memory.words[..]), joined)
    {
      hide GetSize, GetTag, InWords, Even, Aligned;
      var w := memory.words;
      SumEven(p, b);
      SumEven(p + b, n);
      PackReads(p + b + n, 0);
      var next := NextBlkp(bp, w[Hdrp(bp)]);
      var size := GetSize(w[Hdrp(bp)])
                  + (GetSize(w[Hdrp(PrevBlkp(bp, w[bp - 2]))]) + GetSize(w[Ftrp(next, w[Hdrp(next)])]));
      assert size == 4 * (p + b + n);
      w[Hdrp(PrevBlkp(bp, w[bp - 2]))] := WithTag(Pack(size, 0), w[Hdrp(PrevBlkp(bp, w[bp - 2]))]);
      next := NextBlkp(bp, w[Hdrp(bp)]);
      w[Ftrp(next, w[Hdrp(next)])] := WithTag(Pack(size, 0), w[Ftrp(next, w[Hdrp(next)])]);
      r := PrevBlkp(bp, w[bp - 2]);
    }

    /** What the tags of block k say, and where it ends. */
    lemma ReadTags(k: nat)
      requires Image(memory.words[..], blocks) && k < |blocks|
      ensures var b := blocks[k];
              && Recorded(b.start, b.len)
              && GetAlloc(memory.words[b.start - 1]) == (if b.alloc then 1 else 0)
              && GetAlloc(memory.words[b.End() - 2]) == (if b.alloc then 1 else 0)
              && b.End() == (if k + 1 < |blocks| then blocks[k + 1].start else Brk(blocks))
      ensures k + 1 == |blocks| ==> GetAlloc(memory.words[Brk(blocks) - 1]) == 1
      ensures k + 1 == |blocks| ==> GetSize(memory.words[Brk(blocks) - 1]) == 0
    {
      ReadBlock(memory.words[..], blocks, k);
      assert blocks[k] in blocks;
    }

    /** `prev_alloc` and `next_alloc` in `coalesce`, for block k at bp */
    method Neighbours(bp: int, ghost k: nat) returns (prevAlloc: bool, nextAlloc: bool)
      requires Image(memory.words[..], blocks) && 1 <= k < |blocks| && blocks[k].start == bp
      ensures prevAlloc == blocks[k - 1].alloc
      ensures nextAlloc == (k + 1 == |blocks| || blocks[k + 1].alloc)
    {
      hide Image, GetSize, GetTag, GetAlloc, InWords;
      var w := memory.words;
      ReadTags(k - 1);
      ReadTags(k);
      if k + 1 < |blocks| { ReadTags(k + 1); }
      var prev := PrevBlkp(bp, w[bp - 2]);
      prevAlloc := GetAlloc(w[Ftrp(prev, w[Hdrp(prev)])]) != 0 || GetTag(w[Hdrp(prev)]) != 0;
      nextAlloc := GetAlloc(w[Hdrp(NextBlkp(bp, w[Hdrp(bp)]))]) != 0;
    }

    /** The cases of `coalesce` in which something is merged; p, b and n are the lengths of the
        previous block, the block at bp and the next block. */
    method MergeTags(bp: int, prevAlloc: bool, nextAlloc: bool, ghost p: int, ghost b: int, ghost n: int)
      returns (r: int)
      requires !prevAlloc || !nextAlloc
      requires Recorded(bp, b)
      requires !prevAlloc ==> Recorded(bp - p, p)
      requires !nextAlloc ==> Recorded(bp + b, n)
      modifies memory.words
      ensures r == if prevAlloc then bp else bp - p
      ensures var joined := Block(r, (if prevAlloc then 0 else p) + b + (if nextAlloc then 0 else n), false);
              && Room(old(memory.words[..]), joined)
              && memory.words[..] == Retag(old(memory.words[..]), joined)
    {
      hide Recorded, Retag, Room;
      if prevAlloc {
        JoinNext(bp, b, n);
        r := bp;
      } else if nextAlloc {
        r := JoinPrev(bp, p, b);
      } else {
        r := JoinBoth(bp, p, b, n);
      }
    }

    /** Merging block k at bp with its free neighbours, of which there is at least one */
    method MergeBlock(bp: int, prevAlloc: bool, nextAlloc: bool, ghost k: nat) returns (r: int)
      requires Image(memory.words[..], blocks)
      requires 1 <= k < |blocks| && blocks[k].start == bp && !blocks[k].alloc
      requires prevAlloc == blocks[k - 1].alloc
      requires nextAlloc == (k + 1 == |blocks| || blocks[k + 1].alloc)
      requires !prevAlloc || !nextAlloc
      modifies memory.words
      ensures r == Spec.Merged(blocks, k).start
      ensures Room(old(memory.words[..]), Spec.Merged(blocks, k))
      ensures memory.words[..] == Retag(old(memory.words[..]), Spec.Merged(blocks, k))
    {
      MergedCases(blocks, k);
      hide Image, Retag, Recorded, Spec.Merged, Room, Wf;
      ReadTags(k - 1);
      ReadTags(k);
      if k + 1 < |blocks| { ReadTags(k + 1); }
      ghost var nextLen := if nextAlloc then 0 else blocks[k + 1].len;
      r := MergeTags(bp, prevAlloc, nextAlloc, blocks[k - 1].len, blocks[k].len, nextLen);
    }

    /** What retagging the merged block leads to */
    lemma CoalesceFacts(k: nat)
      requires Mapped() && 1 <= k < |blocks| && !blocks[k].alloc
      ensures var joined := Spec.Merged(blocks, k); var w := memory.words[..]; var h' := Spec.Coalesce(State(), k);
              && Room(w, joined) && Image(Retag(w, joined), h'.blocks)
              && SamePayloads(w, Retag(w, joined), Live(blocks)) && SamePayloads(w, w, Live(blocks))
              && joined.start <= joined.End() - 2
              && Retag(w, joined)[joined.start - 1] == joined.Size()
              && GetSize(joined.Size()) == joined.Size() && InWords(joined.Size()) == joined.len
              && h'.rover == Spec.SettledRover(currentBlock, joined) && Boundary(h'.blocks, h'.rover)
              && h'.blocks != [] && h'.blocks[0] == blocks[0] && Brk(h'.blocks) == Brk(blocks)
      ensures blocks[k - 1].alloc && (k + 1 == |blocks| || blocks[k + 1].alloc) ==>
                Spec.Coalesce(State(), k) == State() && Spec.Merged(blocks, k) == blocks[k]
    {
      ImageCoalesce(memory.words[..], State(), k);
      CoalesceKeepsWf(State(), k);
      PackReads(Spec.Merged(blocks, k).len, 0);
      if blocks[k - 1].alloc && (k + 1 == |blocks| || blocks[k + 1].alloc) {
        CoalesceAlone(State(), k);
      }
    }

    /** `coalesce` of the free block k at bp */
    method Coalesce(bp: int, ghost k: nat) returns (r: int)
      requires Mapped() && 1 <= k < |blocks| && blocks[k].start == bp && !blocks[k].alloc
      modifies this`currentBlock, this`blocks, memory.words
      ensures Mapped()
      ensures State() == Spec.Coalesce(old(State()), k)
      ensures r == Spec.Merged(old(blocks), k).start
      ensures SamePayloads(old(memory.words[..]), memory.words[..], Live(old(blocks)))
    {
      hide Image, Wf, GetSize, InWords, Boundary, Spec.Coalesce, Retag, SamePayloads, Live, Spec.Merged;
      var w := memory.words;
      ghost var h := State();
      CoalesceFacts(k);
      var prevAlloc, nextAlloc := Neighbours(bp, k);
      if prevAlloc && nextAlloc {
        return bp;
      }
      r := MergeBlock(bp, prevAlloc, nextAlloc, k);
      if currentBlock > r && currentBlock < NextBlkp(r, w[Hdrp(r)]) {
        currentBlock := r;
      }
      blocks := Spec.Coalesce(h, k).blocks;
    }

    /** What a search sees at block k, or at the epilogue when k is past the last block. */
    lemma ReadHeaderAt(k: nat)
      requires Image(memory.words[..], blocks) && k <= |blocks|
      ensures var p := Position(blocks, k);
              && 2 <= p <= memory.words.Length
              && GetSize(memory.words[p - 1]) == (if k < |blocks| then blocks[k].Size() else 0)
              && (k < |blocks| ==>
                    && GetAlloc(memory.words[p - 1]) == (if blocks[k].alloc then 1 else 0)
                    && GetTag(memory.words[p - 1]) == 0
                    && Position(blocks, k + 1) == blocks[k].End()
                    && blocks[k].len > 0)
    {
      if k < |blocks| {
        ReadBlock(memory.words[..], blocks, k);
      } else {
        ReadBlock(memory.words[..], blocks, k - 1);
      }
    }

    /** The rover lies inside the last block, at the remains of a free block of len words. */
    ghost predicate Lost(len: int)
      reads this, memory, memory.words
    {
      Stored() && Stale(memory.words[..], blocks, currentBlock, len)
    }

    /** A search can start: the state is valid, or the rover is lost at `stale` words of remains
        that the request fits. */
    ghost predicate Ready(stale: int, asize: int)
      reads this, memory, memory.words
    {
      if stale == 0 then Valid() else Lost(stale) && asize <= 4 * stale
    }

    /** What the search reads at a lost rover */
    lemma LostHeader(len: int)
      requires Lost(len)
      ensures Headed(currentBlock, len) && GetAlloc(memory.words[currentBlock - 1]) == 0
      ensures 2 <= currentBlock <= memory.words.Length && blocks != []
    {
      PackReads(len, 0);
      ReadHeader(len / 2, 0, 4 * len);
      ReadHeaderAt(|blocks| - 1);
    }

    /** The first sweep of `find_fit`: next fit from the rover.  Without a fit the rover runs
        on to the epilogue.  A lost rover takes the remains it is at for a free block. */
    method SweepFromRover(asize: int, ghost stale: int) returns (bp: int)
      requires Ready(stale, asize) && asize % 4 == 0
      modifies this`currentBlock
      ensures stale == 0 ==>
                var r := Spec.FirstFit(blocks, Spec.IndexOf(blocks, old(currentBlock)), asize / 4);
                if r.None? then bp == NULL && currentBlock == Brk(blocks)
                else bp == currentBlock == blocks[r.value].start != NULL
      ensures stale != 0 ==> bp == currentBlock == old(currentBlock) != NULL
    {
      hide Image, GetSize, GetAlloc, GetTag, Stale;
      var w := memory.words;
      ghost var need := asize / 4;
      ghost var k0 := if stale == 0 then Spec.IndexOf(blocks, currentBlock) else 0;
      ghost var k := k0;
      if stale == 0 { ReadHeaderAt(k); } else { LostHeader(stale); }
      while GetSize(w[Hdrp(currentBlock)]) > 0
        invariant k0 <= k <= |blocks| && 2 <= currentBlock <= w.Length
        invariant stale == 0 ==> currentBlock == Position(blocks, k)
        invariant stale == 0 ==> GetSize(w[Hdrp(currentBlock)]) == if k < |blocks| then blocks[k].Size() else 0
        invariant stale == 0 ==> Spec.FirstFit(blocks, k, need) == Spec.FirstFit(blocks, k0, need)
        invariant stale != 0 ==> currentBlock == old(currentBlock) && GetSize(w[Hdrp(currentBlock)]) == 4 * stale > 0
        decreases |blocks| - k
      {
        ReadHeaderAt(k);
        var sizeCurrent := GetSize(w[Hdrp(currentBlock)]);
        if asize <= sizeCurrent && GetAlloc(w[Hdrp(currentBlock)]) == 0 && GetTag(w[Hdrp(currentBlock)]) == 0 {
          return currentBlock;
        }
        ReadHeaderAt(k + 1);
        currentBlock := NextBlkp(currentBlock, w[Hdrp(currentBlock)]);
        k := k + 1;
      }
      ReadHeaderAt(k);
      bp := NULL;
    }

    /** The second sweep of `find_fit`: best fit among the blocks before `backup`, where the
        rover ends up. */
    method SweepToBackup(asize: int, backup: int) returns (bestBlock: int)
      requires memory.Valid() && Image(memory.words[..], blocks) && heapListp == blocks[0].start
      requires asize % 4 == 0 && Boundary(blocks, backup)
      modifies this`currentBlock
      ensures currentBlock == backup
      ensures var r := Spec.BestFit(blocks, Spec.IndexOf(blocks, backup), asize / 4);
              if r.None? then bestBlock == NULL else bestBlock == blocks[r.value].start != NULL
    {
      var w := memory.words;
      var sizeBest := 0;
      ghost var need := asize / 4;
      ghost var k0 := Spec.IndexOf(blocks, backup);
      ghost var k := 0;
      bestBlock := NULL;
      currentBlock := heapListp;
      while currentBlock < backup
        invariant 0 <= k <= k0 && currentBlock == blocks[k].start
        invariant var best := Spec.BestFit(blocks, k, need);
                  if best.None? then bestBlock == NULL
                  else bestBlock == blocks[best.value].start != NULL && sizeBest == blocks[best.value].Size()
        decreases k0 - k
      {
        ReadHeaderAt(k);
        ReadHeaderAt(k + 1);
        hide Image, GetSize, GetAlloc, GetTag;
        var sizeCurrent := GetSize(w[Hdrp(currentBlock)]);
        if asize <= sizeCurrent && GetAlloc(w[Hdrp(currentBlock)]) == 0 && GetTag(w[Hdrp(currentBlock)]) == 0 {
          if bestBlock == NULL || sizeCurrent < sizeBest {
            bestBlock := currentBlock;
            sizeBest := sizeCurrent;
          }
        }
        currentBlock := NextBlkp(currentBlock, w[Hdrp(currentBlock)]);
        k := k + 1;
      }
      if k < k0 { StartsOrdered(blocks, k, k0); }
    }

    /** `find_fit` */
    method FindFit(asize: int, ghost stale: int) returns (bp: int)
      requires Ready(stale, asize) && asize % 4 == 0
      modifies this`currentBlock
      ensures stale == 0 ==> Valid()
      ensures stale == 0 ==>
                var (fit, rover) := Spec.FindFit(old(State()), asize / 4);
                && currentBlock == rover
                && if fit.None? then bp == NULL else bp == blocks[fit.value].start != NULL
      ensures stale != 0 ==> bp == currentBlock == old(currentBlock) != NULL
    {
      var currentBlockBackup := currentBlock;
      if stale == 0 { ReadHeaderAt(0); }
      bp := SweepFromRover(asize, stale);
      if bp != NULL {
        assert stale == 0 ==>
            Spec.FirstFit(blocks, Spec.IndexOf(blocks, currentBlockBackup), asize / 4).Some?;
        return;
      }
      bp := SweepToBackup(asize, currentBlockBackup);
    }

    /** The words that a size of 0 writes exist; f is the last of them. */
    ghost predicate ZeroReaches(bp: int, len: int, f: int)
      reads memory.words
    {
      && 2 <= bp && 4 <= len && bp + len - 1 < memory.words.Length
      && f == Ftrp(bp + len, memory.words[bp + len - 1]) && bp <= f < memory.words.Length
    }

    /** The header and footer that `place` writes for an allocated block of n words; for a size of
        0 the footer is the word before the header. */
    method TagAllocated(bp: int, size: int, ghost n: int)
      requires size == 4 * n && HasPair(memory.words[..], bp, n)
      modifies memory.words
      ensures memory.words[..] == AllocatedPair(old(memory.words[..]), bp, n)
    {
      hide GetSize, GetTag, InWords, Aligned, Pack, WithTag, HasPair;
      var w := memory.words;
      PairFacts(w[..], bp, n);
      w[Hdrp(bp)] := WithTag(Pack(size, 1), w[Hdrp(bp)]);
      var ftr := Ftrp(bp, w[Hdrp(bp)]);
      w[ftr] := WithTag(Pack(size, 1), w[ftr]);
    }

    ghost predicate HasPair(w: seq<Word32>, bp: int, n: int) {
      && Even(n) && 0 <= n && 1 <= bp && 2 <= bp + n && bp + n - 1 < |w| <= HEAP_WORDS
      && GetTag(w[bp - 1]) == 0
    }

    ghost function AllocatedPair(w: seq<Word32>, bp: int, n: int): seq<Word32>
      requires HasPair(w, bp, n)
    {
      PairFacts(w, bp, n);
      w[bp - 1 := Pack(4 * n, 1)][bp + n - 2 := WithTag(Pack(4 * n, 1), w[bp + n - 2])]
    }

    lemma PairFacts(w: seq<Word32>, bp: int, n: int)
      requires HasPair(w, bp, n)
      ensures n != 1 && 1 <= bp && 2 <= bp + n && bp + n - 1 < |w| && 0 <= 4 * n < 0xFFFF_FFFF && Aligned(4 * n)
      ensures GetTag(Pack(4 * n, 1)) == 0 && InWords(GetSize(Pack(4 * n, 1))) == n
      ensures WithTag(Pack(4 * n, 1), w[bp - 1]) == Pack(4 * n, 1)
    {
      PackReads(n, 1);
    }

    /** For a block proper, that is what `Retag` says. */
    lemma PairIsRetag(w: seq<Word32>, bp: int, n: int)
      requires HasPair(w, bp, n) && n > 0
      ensures Room(w, Block(bp, n, true)) && AllocatedPair(w, bp, n) == Retag(w, Block(bp, n, true))
    {
      EvenPositive(n);
    }

    lemma EvenPositive(n: int)
      requires Even(n)
      ensures n > 0 ==> n >= 2
    {
    }

    /** The tags of the part split off. Each address is found from the header at bp, which for a
        size of 0 is the word just written. */
    method TagRemainder(bp: int, remainder: int, ghost need: int, ghost rest: int, ghost f: int)
      requires remainder == 4 * rest && Even(rest) && rest >= 4 && need >= 0 && 1 <= bp
      requires bp + need + rest - 1 < memory.words.Length <= HEAP_WORDS
      requires InWords(GetSize(memory.words[bp - 1])) == need
      requires need == 0 ==> ZeroReaches(bp, rest, f)
      modifies memory.words
      ensures need > 0 ==> Room(old(memory.words[..]), Block(bp + need, rest, false))
                           && memory.words[..] == PutTags(old(memory.words[..]), Block(bp + need, rest, false))
      ensures need == 0 ==> 4 * rest < 0x1_0000_0000
                            && memory.words[..] == old(memory.words[..])[bp - 1 := 4 * rest][f := 4 * rest]
    {
      hide GetSize, GetTag, InWords, Even, Aligned;
      var w := memory.words;
      PackReads(rest, 0);
      var next := NextBlkp(bp, w[Hdrp(bp)]);
      w[Hdrp(next)] := Pack(remainder, 0);
      next := NextBlkp(bp, w[Hdrp(bp)]);
      w[Ftrp(next, w[Hdrp(next)])] := Pack(remainder, 0);
    }

    /** The splitting case of `place` on a block of len words. A size of 0, to which requests above
        2^32 - 16 can wrap, makes the second header overwrite the first. */
    method SplitTags(bp: int, asize: int, ghost len: int, ghost need: int, ghost f: int)
      requires Headed(bp, len) && asize == 4 * need && Even(need)
      requires if need == 0 then ZeroReaches(bp, len, f) else 4 <= need <= len - 4
      modifies memory.words
      ensures need > 0 ==> Room(old(memory.words[..]), Block(bp, len, false)) && Even(len - need)
      ensures need > 0 ==> memory.words[..] == PlaceTags(old(memory.words[..]), Block(bp, len, false), need)
      ensures need == 0 ==> 4 * len < 0x1_0000_0000
                            && memory.words[..] == ZeroTags(old(memory.words[..]), bp, f, 4 * len)
    {
      hide GetSize, GetTag, InWords, Even, Aligned;
      var remainder := GetSize(memory.words[Hdrp(bp)]) - asize;
      SumEven(len, need);
      PackReads(need, 1);
      if need > 0 { PairIsRetag(memory.words[..], bp, need); }
      TagAllocated(bp, asize, need);
      TagRemainder(bp, remainder, need, len - need, f);
    }

    /** `place`, on the words of a free block of len words at bp */
    method WritePlaced(bp: int, asize: int, ghost len: int, ghost need: int, ghost f: int)
      requires Headed(bp, len) && asize == 4 * need && Even(need)
      requires if need == 0 then ZeroReaches(bp, len, f) else 4 <= need <= len
      modifies memory.words
      ensures need > 0 ==> Room(old(memory.words[..]), Block(bp, len, false)) && Even(len - need)
      ensures need > 0 ==> memory.words[..] == PlaceTags(old(memory.words[..]), Block(bp, len, false), need)
      ensures need == 0 ==> 4 * len < 0x1_0000_0000
                            && memory.words[..] == ZeroTags(old(memory.words[..]), bp, f, 4 * len)
    {
      hide GetSize, GetTag, Even, Retag, PutTags;
      var ptrSize := GetSize(memory.words[Hdrp(bp)]);
      var remainder := ptrSize - asize;
      SumEven(len, need);
      if remainder >= 2 * DSIZE {
        SplitTags(bp, asize, len, need, f);
      } else {
        PairIsRetag(memory.words[..], bp, len);
        TagAllocated(bp, ptrSize, len);
      }
    }

    /** `place` with a size of 0 on the free block k at bp: the block stays free, and the footer
        of the block before it is lost, so that memory no longer holds the blocks. */
    method PlaceZero(bp: int, ghost k: nat)
      requires Valid() && 1 <= k < |blocks| && blocks[k].start == bp && !blocks[k].alloc
      modifies memory.words
      ensures forall c :: c in blocks ==> 1 <= c.start <= memory.words.Length
                                          && memory.words[c.start - 1] == old(memory.words[c.start - 1])
      ensures !Stored()
    {
      hide Image, Wf, NoTwoFree, Boundary, GetSize, GetTag, Even, ZeroTags, Stamped;
      ZeroFacts(k);
      ZeroBreaksFooter(memory.words[..], blocks, k);
      WritePlaced(bp, 0, blocks[k].len, 0, FooterBehind(blocks, k));
      NotStored(k - 1);
    }

    lemma ZeroFacts(k: nat)
      requires Image(memory.words[..], blocks) && k < |blocks| && !blocks[k].alloc
      ensures Headed(blocks[k].start, blocks[k].len) && Even(0)
      ensures ZeroReaches(blocks[k].start, blocks[k].len, FooterBehind(blocks, k))
    {
      ReadTags(k);
      ReadHeaderAt(k);
      ReadHeaderAt(k + 1);
      FooterBehindFits(memory.words[..], blocks, k);
      assert blocks[k] in blocks && WellSized(blocks[k], blocks[0].start);
    }

    lemma NotStored(k: nat)
      requires k < |blocks| && !Stamped(memory.words[..], blocks[k])
      ensures !Stored()
    {
    }

    /** What placing `need` words in the free block k leads to */
    lemma PlaceFacts(k: nat, need: int)
      requires Valid() && k < |blocks| && Even(need) && need >= MIN_WORDS && Spec.Fits(blocks[k], need)
      ensures Headed(blocks[k].start, blocks[k].len)
      ensures var w := memory.words[..]; var bs' := Spec.Place(blocks, k, need);
              && blocks[k] == Block(blocks[k].start, blocks[k].len, false)
              && Room(w, blocks[k]) && Even(blocks[k].len - need)
              && Image(PlaceTags(w, blocks[k], need), bs')
              && SamePayloads(w, PlaceTags(w, blocks[k], need), Live(blocks))
              && NoTwoFree(bs') && Boundary(bs', currentBlock)
              && bs' != [] && bs'[0] == blocks[0] && Brk(bs') == Brk(blocks)
    {
      hide Image, Wf, NoTwoFree, Boundary, Live, PlaceTags, Spec.Place, SamePayloads, GetAlloc;
      InvHolds();
      ReadTags(k);
      SumEven(blocks[k].len, need);
      ImagePlace(memory.words[..], blocks, k, need);
      PlaceKeepsInv(State(), k, need);
    }

    /** `place` on the free block k at bp, or at a lost rover; asize is `need` words. */
    method Place(bp: int, asize: int, ghost k: nat, ghost need: int, ghost stale: int)
      requires asize == 4 * need && Even(need) && need >= MIN_WORDS
      requires if stale == 0 then Valid() && k < |blocks| && blocks[k].start == bp && Spec.Fits(blocks[k], need)
               else Lost(stale) && bp == currentBlock && need <= stale
      modifies this`blocks, memory.words
      ensures stale == 0 ==> Valid() && State() == Heap(Spec.Place(old(blocks), k, need), currentBlock)
      ensures stale == 0 ==> SamePayloads(old(memory.words[..]), memory.words[..], Live(old(blocks)))
      ensures stale != 0 ==> blocks == old(blocks) && PlacedAt(old(memory.words[..]), bp, stale, need)
    {
      hide Image, Wf, NoTwoFree, PlaceTags, SamePayloads, Live, Headed, Spec.Place, Boundary, Even, Room, Stale;
      if stale == 0 { PlaceFacts(k, need); } else { LostHeader(stale); }
      WritePlaced(bp, asize, if stale == 0 then blocks[k].len else stale, need, 0);
      if stale == 0 { blocks := Spec.Place(blocks, k, need); }
    }

    /** Compared with w, only the tags for `need` of len words at bp have been written. */
    ghost predicate PlacedAt(w: seq<Word32>, bp: int, len: int, need: int)
      reads memory.words
    {
      var b := Block(bp, len, false);
      && Room(w, b) && 4 <= need <= len && Even(need) && Even(len - need)
      && memory.words[..] == PlaceTags(w, b, need)
    }

    /** The writes of `extend_heap`: a free block of `words` words at bp and a new epilogue. */
    method WriteAppended(bp: int, size: int, ghost words: int)
      requires 1 <= bp && bp + words <= memory.words.Length <= HEAP_WORDS
      requires Even(words) && words > 1 && size == 4 * words
      modifies memory.words
      ensures Room(old(memory.words[..]), Block(bp, words, false))
      ensures memory.words[..] == AppendTags(old(memory.words[..]), Block(bp, words, false))
    {
      hide GetSize, GetTag, InWords, Even, Aligned;
      var w := memory.words;
      PackReads(words, 0);
      w[Hdrp(bp)] := Pack(size, 0);
      w[Ftrp(bp, w[Hdrp(bp)])] := Pack(size, 0);
      w[Hdrp(NextBlkp(bp, w[Hdrp(bp)]))] := 1;
    }

    /** `extend_heap` up to its call of `coalesce` */
    method AppendBlock(bytes: int, ghost words: int) returns (bp: int)
      requires Valid() && bytes == 4 * words && Even(words) && 16 <= bytes < Spec.WORD_RANGE
      modifies this`blocks, memory`brk, memory.words
      ensures Mapped()
      ensures bp == NULL <==> 4 * (old(Brk(blocks)) + words) > MAX_HEAP
      ensures bp == NULL ==> blocks == old(blocks)
      ensures bp != NULL ==> bp == old(Brk(blocks)) && blocks == old(blocks) + [Block(bp, words, false)]
      ensures SamePayloads(old(memory.words[..]), memory.words[..], Live(old(blocks)))
    {
      var size := Align(bytes);
      assert size == bytes;
      var r := memory.Sbrk(ToInt(size));
      if r == SBRK_FAILED {
        return NULL;
      }
      bp := r / 4;
      ghost var bs := blocks;
      ghost var b := Block(bp, words, false);
      ImageAppend(memory.words[..], bs, b);
      ReadHeaderAt(|bs|);
      blocks := bs + [b];
      assert blocks[Spec.IndexOf(bs, currentBlock)] in blocks;
      WriteAppended(bp, size, words);
    }

    /** The appended block, before it is merged with the last block */
    lemma ExtendFacts(words: int)
      requires Valid() && Even(words) && words >= MIN_WORDS
      ensures blocks != []
      ensures var b := Block(Brk(blocks), words, false); var bs := blocks + [b];
              && |blocks| >= 1 && Live(blocks) <= Live(bs)
              && (4 * (Brk(blocks) + words) > MAX_HEAP ==> Spec.Extend(State(), words) == None)
              && (4 * (Brk(blocks) + words) <= MAX_HEAP ==>
                    var h' := Spec.Coalesce(Heap(bs, currentBlock), |blocks|);
                    && Spec.Extend(State(), words) == Some(h') && NoTwoFree(h'.blocks)
                    && h'.blocks != [] && h'.blocks[|h'.blocks| - 1] == Spec.Merged(bs, |blocks|))
    {
      ExtendKeepsInv(State(), words);
      MergedIsLast(blocks, Block(Brk(blocks), words, false), currentBlock);
    }

    lemma LastNonNull()
      requires Mapped()
      ensures blocks != [] && blocks[|blocks| - 1].start != NULL
    {
      ReadHeaderAt(|blocks| - 1);
    }

    /** `extend_heap` by a number of bytes that is already aligned */
    method ExtendHeap(bytes: int, ghost words: int) returns (bp: int)
      requires Valid() && bytes == 4 * words && Even(words) && 16 <= bytes < Spec.WORD_RANGE
      modifies this`currentBlock, this`blocks, memory`brk, memory.words
      ensures Valid()
      ensures match Spec.Extend(old(State()), words)
              case None => bp == NULL && State() == old(State())
              case Some(h) => State() == h && bp == blocks[|blocks| - 1].start != NULL
      ensures SamePayloads(old(memory.words[..]), memory.words[..], Live(old(blocks)))
    {
      hide Image, Wf, NoTwoFree, Live, Boundary, SamePayloads, Spec.Coalesce, Spec.Merged, Spec.Extend, Even;
      ghost var w0 := memory.words[..];
      ghost var live, k := Live(blocks), |blocks|;
      ExtendFacts(words);
      bp := AppendBlock(bytes, words);
      if bp == NULL {
        return;
      }
      ghost var w1, live1 := memory.words[..], Live(blocks);
      bp := Coalesce(bp, k);
      LastNonNull();
      SamePayloadsThen(w0, w1, memory.words[..], live, live1);
    }

    /** `mm_init` on a heap area whose break is 8-aligned */
    method MmInit() returns (r: int)
      requires memory.Valid() && memory.brk % 8 == 0
      modifies this, memory`brk, memory.words
      ensures old(memory.brk) + 16 > MAX_HEAP ==>
                r == -1 && heapListp == SBRK_FAILED && memory.brk == old(memory.brk)
                && memory.words[..] == old(memory.words[..])
      ensures old(memory.brk) + 16 <= MAX_HEAP ==>
                r == 0 && Valid() && State() == Initial(old(memory.brk) / 4 + 2)
    {
      var w := memory.words;
      var start := memory.Sbrk(16);
      if start == SBRK_FAILED {
        heapListp := SBRK_FAILED;
        return -1;
      }
      heapListp := start / 4;
      w[heapListp] := 0;
      w[heapListp + 1] := Pack(8, 1);
      w[heapListp + 2] := Pack(8, 1);
      w[heapListp + 3] := Pack(0, 1);
      heapListp := heapListp + 2;
      currentBlock := heapListp;
      blocks := Initial(heapListp).blocks;
      return 0;
    }

    /** The heap that a call starts from: the current one, or the one lazy initialisation makes */
    ghost function Start(): Heap
      reads this, memory
      requires heapListp == NULL ==> memory.Valid() && memory.brk % 8 == 0 && memory.brk + 16 <= MAX_HEAP
    {
      if heapListp == NULL then Initial(memory.brk / 4 + 2) else State()
    }

    /** What `ExtendKeepsInv` says of this heap */
    lemma ExtensionFits(words: int)
      requires Valid() && Even(words) && words >= MIN_WORDS
      ensures blocks != []
      ensures Spec.Extend(State(), words).Some? ==>
                var h := Spec.Extend(State(), words).value;
                && h.blocks != [] && Spec.Fits(h.blocks[|h.blocks| - 1], words)
                && Live(h.blocks) == Live(blocks)
    {
      ExtendKeepsInv(State(), words);
    }

    /** `mm_malloc` when no free block fits */
    method AllocateAtEnd(asize: int, ghost need: int) returns (bp: int)
      requires Valid() && asize == 4 * need && Even(need) && 16 <= asize < Spec.WORD_RANGE
      requires blocks != [] && Boundary(blocks, currentBlock)
      requires Spec.FindFit(State(), need) == (None, currentBlock)
      modifies this`currentBlock, this`blocks, memory`brk, memory.words
      ensures Valid()
      ensures (State(), bp) == Spec.AllocateWords(old(State()), need)
      ensures SamePayloads(old(memory.words[..]), memory.words[..], Live(old(blocks)))
    {
      hide Image, Wf, NoTwoFree, Boundary, Mapped, Valid, SamePayloads, Live, Spec.Place, Spec.Extend, Spec.FindFit;
      ghost var live := Live(blocks);
      ghost var w0 := memory.words[..];
      var extendSize := if asize > CHUNKSIZE then asize else CHUNKSIZE;
      ExtensionFits(Spec.Max(need, 1024));
      bp := ExtendHeap(extendSize, Spec.Max(need, 1024));
      if bp == NULL {
        return;
      }
      ghost var w1 := memory.words[..];
      Place(bp, asize, |blocks| - 1, need, 0);
      SamePayloadsThen(w0, w1, memory.words[..], live, live);
    }

    /** What `FindFitPolicy` says of this heap */
    lemma FindFitFacts(need: int)
      requires Valid()
      ensures blocks != [] && Boundary(blocks, currentBlock)
      ensures var (fit, rover) := Spec.FindFit(State(), need);
              if fit.None? then rover == currentBlock
              else fit.value < |blocks| && Spec.Fits(blocks[fit.value], need)
    {
      Spec.FindFitPolicy(State(), need);
    }

    /** `mm_malloc` once the request is rounded up to asize bytes, which is `need` words */
    method Allocate(asize: int, ghost need: int, ghost stale: int) returns (bp: int)
      requires asize == 4 * need && Even(need) && 16 <= asize < Spec.WORD_RANGE
      requires Ready(stale, asize)
      modifies this`currentBlock, this`blocks, memory`brk, memory.words
      ensures stale == 0 ==> Valid() && old(blocks) != [] && Boundary(old(blocks), old(currentBlock))
      ensures stale == 0 ==> (State(), bp) == Spec.AllocateWords(old(State()), need)
      ensures stale == 0 ==> SamePayloads(old(memory.words[..]), memory.words[..], Live(old(blocks)))
      ensures stale != 0 ==> State() == old(State()) && bp == currentBlock
                             && PlacedAt(old(memory.words[..]), bp, stale, need)
    {
      hide Image, Wf, NoTwoFree, Boundary, Mapped, Valid, SamePayloads, Live, Even, Stored, Stale;
      hide Spec.Place, Spec.FindFit, Spec.Extend, PlaceTags, Room;
      ghost var k := 0;
      if stale == 0 {
        FindFitFacts(need);
        var fit := Spec.FindFit(State(), need).0;
        if fit.Some? { k := fit.value; }
      }
      bp := FindFit(asize, stale);
      if bp != NULL {
        Place(bp, asize, k, need, stale);
      } else {
        bp := AllocateAtEnd(asize, need);
      }
    }

    /** bp lies strictly inside the last block, which is live, and the payload word before bp is not
        what it was in w. */
    ghost predicate Intrudes(w: seq<Word32>, bp: int)
      reads this, memory.words
    {
      && blocks != []
      && var b := blocks[|blocks| - 1];
      && b in Live(blocks) && b.start < bp && b.Payload(bp) && b.Payload(bp - 1)
      && 0 <= bp - 1 < |w| == memory.words.Length && memory.words[bp - 1] != w[bp - 1]
    }

    /** `mm_malloc`.  The lazy call of `mm_init` must have room, since its result is ignored.  With
        a lost rover a request that fits the remains there is answered inside the last block,
        where it overwrites a payload word. */
    method MmMalloc(size: nat, ghost stale: int) returns (bp: int)
      requires heapListp != NULL && stale == 0 ==> Valid()
      requires heapListp == NULL ==> memory.Valid() && memory.brk % 8 == 0 && memory.brk + 16 <= MAX_HEAP
      requires stale != 0 ==> heapListp != NULL && size > 0 && Lost(stale) && Spec.AdjustedSize(size) <= 4 * stale
      requires size <= SAFE_REQUEST
      modifies this, memory`brk, memory.words
      ensures stale == 0 ==> Valid() && (State(), bp) == Spec.Malloc(old(Start()), size)
      ensures stale == 0 ==> SamePayloads(old(memory.words[..]), memory.words[..], Live(old(Start()).blocks))
      ensures stale != 0 ==> State() == old(State()) && bp == currentBlock
      ensures stale != 0 ==> PlacedAt(old(memory.words[..]), bp, stale, Spec.Need(size))
      ensures stale != 0 ==> Intrudes(old(memory.words[..]), bp)
    {
      hide PlaceTags, Room, Stale, Spec.AllocateWords;
      ghost var w := memory.words[..];
      if heapListp == NULL {
        var r := MmInit();
      }
      if size == 0 {
        return NULL;
      }
      var asize;
      if size <= DSIZE {
        asize := 2 * DSIZE;
      } else {
        asize := 8 * ((size + DSIZE + (DSIZE - 1)) % 0x1_0000_0000 / 8);
      }
      RoundingIsTight(size);
      if stale != 0 { StaleInside(w, blocks, currentBlock, stale, Spec.Need(size)); }
      bp := Allocate(asize, Spec.Need(size), stale);
    }

    /** What freeing the live block k leads to, before merging */
    lemma FreeFacts(k: nat)
      requires Mapped() && 1 <= k < |blocks| && blocks[k] in Live(blocks)
      ensures Headed(blocks[k].start, blocks[k].len)
      ensures var b := blocks[k].(alloc := false); var bs' := Spec.Freed(blocks, k); var w := memory.words[..];
              && b == Block(b.start, b.len, false) && Room(w, b)
              && Image(Retag(w, b), bs') && SamePayloads(w, Retag(w, b), Live(blocks) - {blocks[k]})
              && Boundary(bs', currentBlock) && bs' != [] && bs'[0] == blocks[0] && Brk(bs') == Brk(blocks)
    {
      ReadTags(k);
      ImageFreed(memory.words[..], blocks, k);
      FreedKeepsWf(blocks, k) by { assert blocks[k] in blocks; }
      FreedKeepsRover(blocks, k, currentBlock);
    }

    /** `mm_free` up to its call of `coalesce`: block k at ptr becomes a free block. */
    method WriteFreed(ptr: int, ghost k: nat)
      requires Mapped() && 1 <= k < |blocks| && blocks[k].start == ptr && blocks[k] in Live(blocks)
      modifies this`blocks, memory.words
      ensures Mapped() && blocks == Spec.Freed(old(blocks), k)
      ensures SamePayloads(old(memory.words[..]), memory.words[..], Live(old(blocks)) - {old(blocks)[k]})
    {
      hide Image, Wf, Live, SamePayloads, Boundary, NoTwoFree, Retag, Room, Spec.Freed;
      var w := memory.words;
      ghost var w0, live := w[..], Live(blocks);
      FreeFacts(k);
      var size := GetSize(w[Hdrp(ptr)]);
      UntagNext(ptr, k);
      ghost var w1 := w[..];
      FreeFacts(k);
      FreeTags(ptr, size, blocks[k].len);
      SamePayloadsThen(w0, w1, w[..], live - {blocks[k]}, live - {blocks[k]}) by {
        SamePayloadsFewer(w0, w1, live, live - {blocks[k]});
      }
      blocks := Spec.Freed(blocks, k);
    }

    /** `DELETE_TAG(HDRP(NEXT_BLKP(ptr)))`: only an epilogue can carry a tag. */
    method UntagNext(ptr: int, ghost k: nat)
      requires Mapped() && k < |blocks| && blocks[k].start == ptr
      modifies memory.words
      ensures Mapped()
      ensures SamePayloads(old(memory.words[..]), memory.words[..], Live(blocks))
    {
      var w := memory.words;
      ghost var w0 := w[..];
      ReadHeaderAt(k);
      ReadHeaderAt(k + 1);
      var next := Hdrp(NextBlkp(ptr, w[Hdrp(ptr)]));
      w[next] := ClearTag(w[next]);
      if k + 1 == |blocks| {
        ImageEpilogueTag(w0, blocks, w[next]);
        assert w[..] == w0[Brk(blocks) - 1 := w[next]];
      } else {
        assert w[..] == w0;
      }
    }

    /** The tags of `mm_free` */
    method FreeTags(ptr: int, size: int, ghost len: int)
      requires Headed(ptr, len) && size == 4 * len
      modifies memory.words
      ensures Room(old(memory.words[..]), Block(ptr, len, false))
      ensures memory.words[..] == Retag(old(memory.words[..]), Block(ptr, len, false))
    {
      hide GetSize, GetTag, InWords, Even, Aligned;
      var w := memory.words;
      PackReads(len, 0);
      w[Hdrp(ptr)] := WithTag(Pack(size, 0), w[Hdrp(ptr)]);
      w[Ftrp(ptr, w[Hdrp(ptr)])] := WithTag(Pack(size, 0), w[Ftrp(ptr, w[Hdrp(ptr)])]);
    }

    /** `mm_free` */
    method MmFree(ptr: int)
      requires ptr != NULL ==> Valid() && LiveAt(blocks, ptr)
      modifies this, memory.words
      ensures ptr == NULL ==> heapListp == old(heapListp) && State() == old(State())
      ensures ptr == NULL ==> memory.words[..] == old(memory.words[..])
      ensures ptr != NULL ==> Valid() && State() == Spec.Free(old(State()), ptr)
      ensures ptr != NULL ==> SamePayloads(old(memory.words[..]), memory.words[..],
                                           Live(old(blocks)) - {BlockAt(old(blocks), ptr)})
    {
      if ptr == NULL {
        return;
      }
      ghost var h := State();
      ghost var k := Spec.IndexOf(blocks, ptr);
      ghost var w0 := memory.words[..];
      LiveIndex(blocks, ptr);
      FreeRefines(h, ptr);
      FreedRemovesOne(blocks, k);
      WriteFreed(ptr, k);
      ghost var w1 := memory.words[..];
      var bp := Coalesce(ptr, k);
      SamePayloadsThen(w0, w1, memory.words[..], Live(h.blocks) - {h.blocks[k]}, Live(Spec.Freed(h.blocks, k)));
    }

    /** `IS_BLOCK_ALLOCATED` */
    function IsBlockAllocated(bp: int): bool
      requires 1 <= bp <= memory.words.Length
      reads memory.words
    {
      GetAlloc(memory.words[Hdrp(bp)]) != 0 && GetSize(memory.words[Hdrp(bp)]) != 0
    }

    /** `extend_heap_recycle`: the bytes of the free blocks that follow block k at ptr.  With no
        two neighbours free, that is the next block or nothing. */
    method ExtendHeapRecycle(ptr: int, bytes: int, ghost k: nat) returns (result: int)
      requires Valid() && k < |blocks| && blocks[k].start == ptr && 0 <= bytes < Spec.WORD_RANGE
      ensures result == if k + 1 < |blocks| && !blocks[k + 1].alloc then blocks[k + 1].Size() else 0
    {
      hide Image, Wf, GetSize, GetAlloc, GetTag, Boundary;
      var w := memory.words;
      var size := Align(bytes);
      result := 0;
      InvHolds();
      ReadHeaderAt(k);
      ReadHeaderAt(k + 1);
      ReadTags(|blocks| - 1);
      var cur := NextBlkp(ptr, w[Hdrp(ptr)]);
      ghost var j := k + 1;
      while !IsBlockAllocated(cur) && GetSize(w[Hdrp(cur)]) > 0
        invariant k + 1 <= j <= |blocks| && j <= k + 2 && cur == Position(blocks, j)
        invariant 1 <= cur <= w.Length && GetSize(w[Hdrp(cur)]) == (if j < |blocks| then blocks[j].Size() else 0)
        invariant j < |blocks| ==> GetAlloc(w[Hdrp(cur)]) == (if blocks[j].alloc then 1 else 0) && blocks[j].len > 0
        invariant j == k + 1 ==> result == 0
        invariant j == k + 2 ==> !blocks[k + 1].alloc && result == blocks[k + 1].Size()
        decreases |blocks| - j
      {
        ReadHeaderAt(j);
        ReadHeaderAt(j + 1);
        result := result + GetSize(w[Hdrp(cur)]);
        if result > size {
          break;
        }
        cur := NextBlkp(cur, w[Hdrp(cur)]);
        j := j + 1;
      }
    }

    /** `mm_realloc` gives the free block that ends the heap to block b at ptr before it. */
    method AbsorbLast(ptr: int, size: int, ghost bs: seq<Block>, ghost last: Block)
      requires Image(memory.words[..], bs + [last])
      requires bs != [] && bs[|bs| - 1] in Live(bs) && bs[|bs| - 1].start == ptr && !last.alloc
      requires size == bs[|bs| - 1].Size() + last.Size()
      modifies memory.words
      ensures var k := |bs| - 1; var bs' := bs[k := bs[k].(len := bs[k].len + last.len)];
              && Image(memory.words[..], bs') && Brk(bs') == Brk(bs + [last])
              && SamePayloads(old(memory.words[..]), memory.words[..], Live(bs))
              && Stale(memory.words[..], bs', last.start, last.len)
    {
      var w := memory.words;
      ghost var w0 := w[..];
      ghost var b := bs[|bs| - 1];
      ghost var b' := b.(len := b.len + last.len);
      ImageAbsorb(w0, bs, last);
      AbsorbLeavesHeader(w0, bs, last);
      ReadBlock(w0, bs + [last], |bs| - 1);
      ReadBlock(w0, bs + [last], |bs|);
      SumEven(b.len, last.len);
      PackReads(b'.len, 1);
      hide Image, Wf, GetSize, GetTag, InWords, Even, Aligned, Live, SamePayloads, Stale;
      assert size == 4 * b'.len;
      w[Hdrp(ptr)] := Pack(size, 1);
      w[Ftrp(ptr, w[Hdrp(ptr)])] := Pack(size, 1);
      assert w[..] == PutTags(w0, b');
    }

    /** What growing the last allocated block at ptr starts from */
    lemma GrowthFacts(ptr: int, n: nat)
      requires Valid() && CanGrow(State(), ptr, n)
      ensures blocks != []
      ensures var k := Spec.LastAllocated(blocks); var b := blocks[k];
              var extra := Spec.Shortfall(blocks, k, Spec.PaddedSize(n)); var words := extra / 4;
              && k > 0 && b.start == ptr && 2 <= ptr <= memory.words.Length && Wf(blocks)
              && GetSize(memory.words[ptr - 1]) == b.Size()
              && b.Size() < Spec.PaddedSize(n) < b.Size() + 0x8000_0000
              && extra == 4 * words && Even(words) && (extra == 0 || extra >= CHUNKSIZE) && extra < Spec.WORD_RANGE
              && Brk(blocks) == b.End() + (if k + 1 < |blocks| then blocks[k + 1].len else 0)
              && (k + 1 < |blocks| ==> !blocks[k + 1].alloc && blocks[k + 1].len > 0)
              && (Spec.GrowLast(State(), n).1 == NULL <==> 4 * Brk(blocks) + extra > MAX_HEAP)
              && (Spec.GrowLast(State(), n).1 == NULL ==> extra > 0 && Spec.GrowLast(State(), n).0 == State())
    {
      hide Image, NoTwoFree, Boundary, Live, Tiles, Spec.GrowLast, Spec.AdjustedSize;
      InvHolds();
      var k := Spec.LastAllocated(blocks);
      ReadHeaderAt(k);
      EndOfBlock(blocks, k);
      GrowLastResult(State(), ptr, n);
      ShortfallFacts(State(), ptr, n);
      GrowRefines(State(), ptr, n);
      if k + 1 < |blocks| { ReadHeaderAt(k + 1); }
    }

    /** What failing to extend means for growing */
    lemma GrowthExtends(ptr: int, n: nat)
      requires Valid() && CanGrow(State(), ptr, n)
      ensures var k := Spec.LastAllocated(blocks);
              var words := Spec.Shortfall(blocks, k, Spec.PaddedSize(n)) / 4;
              && (Spec.GrowLast(State(), n).1 == NULL ==> Spec.Extend(State(), words) == None)
              && (Spec.GrowLast(State(), n).1 != NULL ==>
                    var bs1 := blocks[..k + 1] + [Tail(blocks, k, words)];
                    && (if words == 0 then bs1 == blocks
                        else Spec.Extend(State(), words) == Some(Heap(bs1, currentBlock)))
                    && GrowReady(blocks[..k + 1], Tail(blocks, k, words), ptr)
                    && Live(blocks[..k + 1]) == Live(blocks)
                    && NoTwoFree(Spec.GrowLast(State(), n).0.blocks)
                    && Spec.GrowLast(State(), n).0.blocks[0] == blocks[0]
                    && Spec.GrowLast(State(), n)
                       == (Heap(blocks[..k + 1][k := blocks[k].(len := blocks[k].len + Tail(blocks, k, words).len)],
                                currentBlock), ptr))
    {
      hide Image, Wf, NoTwoFree, Boundary, Live, CanGrow;
      hide Spec.PaddedSize, Spec.GrowLast, Spec.Shortfall, Spec.LastAllocated, Spec.Extend;
      InvHolds();
      GrowthFacts(ptr, n);
      ShortfallFacts(State(), ptr, n);
      GrowLastResult(State(), ptr, n);
      GrowRefines(State(), ptr, n);
      if Spec.GrowLast(State(), n).1 != NULL {
        ReadyToGrow(State(), ptr, n);
      } else {
        ExtendKeepsInv(State(), Spec.Shortfall(blocks, Spec.LastAllocated(blocks), Spec.PaddedSize(n)) / 4);
      }
    }

    /** The blocks bs end in the live block at ptr, and f is free behind it. */
    ghost predicate GrowReady(bs: seq<Block>, f: Block, ptr: int) {
      && bs != [] && bs[|bs| - 1] in Live(bs) && bs[|bs| - 1].start == ptr
      && !f.alloc && Wf(bs + [f]) && NoTwoFree(bs + [f])
    }

    /** The header of the free block swallowed is still in memory; bs are the blocks before. */
    ghost predicate Remains(w: seq<Word32>, bs: seq<Block>)
      reads this
      requires bs != []
    {
      var end := bs[Spec.LastAllocated(bs)].End();
      blocks != [] && Stale(w, blocks, end, Brk(blocks) - end)
    }

    /** `mm_realloc` of the last allocated block k at ptr, from `remaining_size < 0` to the
        rewritten tags */
    method ExtendLast(ptr: int, bodySize: int, ghost n: nat) returns (ok: bool)
      requires Valid() && CanGrow(State(), ptr, n) && bodySize == Spec.PaddedSize(n)
      modifies this`currentBlock, this`blocks, memory`brk, memory.words
      ensures Stored() && NoTwoFree(blocks)
      ensures ok <==> Spec.GrowLast(old(State()), n).1 != NULL
      ensures State() == Spec.GrowLast(old(State()), n).0
      ensures ok ==> Remains(memory.words[..], old(blocks))
      ensures SamePayloads(old(memory.words[..]), memory.words[..], Live(old(blocks)))
    {
      hide Image, Wf, NoTwoFree, Boundary, SamePayloads, Live, GetSize, Even, Spec.Extend, Spec.GrowLast, CanGrow;
      hide Spec.FindFit, Spec.AdjustedSize, Stale;
      var w := memory.words;
      ghost var h, w0 := State(), w[..];
      GrowthFacts(ptr, n);
      ghost var k := Spec.LastAllocated(blocks);
      ghost var words := Spec.Shortfall(blocks, k, bodySize) / 4;
      GrowthExtends(ptr, n);
      var remainingSize := GetSize(w[Hdrp(ptr)]) - bodySize;
      var expandableSize := remainingSize;
      var recycled := ExtendHeapRecycle(ptr, -remainingSize, k);
      expandableSize := expandableSize + recycled;
      if expandableSize < 0 {
        var extendSize := if -expandableSize > CHUNKSIZE then -expandableSize else CHUNKSIZE;
        var bp := ExtendHeap(extendSize, words);
        if bp == NULL {
          return false;
        }
        expandableSize := expandableSize + extendSize;
      }
      ghost var w1, bs, f := w[..], h.blocks[..k + 1], Tail(h.blocks, k, words);
      AbsorbLast(ptr, bodySize + expandableSize, bs, f);
      SamePayloadsThen(w0, w1, w[..], Live(h.blocks), Live(bs));
      blocks := bs[k := bs[k].(len := bs[k].len + f.len)];
      ok := true;
    }

    /** The growth path of `mm_realloc` for the last allocated block. What follows it is the
        epilogue or a free block before the epilogue, so the code takes this path; afterwards the
        rover is a block boundary unless it was at the block swallowed. */
    method ReallocLast(ptr: int, size: nat) returns (newPtr: int)
      requires Valid() && CanGrow(State(), ptr, size)
      modifies this`currentBlock, this`blocks, memory`brk, memory.words
      ensures Stored() && NoTwoFree(blocks)
      ensures (State(), newPtr) == Spec.GrowLast(old(State()), size)
      ensures Valid() <==> newPtr == NULL || RoverStays(old(State()))
      ensures newPtr != NULL && !RoverStays(old(State())) ==> Lost(Brk(blocks) - currentBlock)
      ensures SamePayloads(old(memory.words[..]), memory.words[..], Live(old(blocks)))
    {
      hide Image, Wf, NoTwoFree, Boundary, SamePayloads, Live, GetSize, GetAlloc, Even;
      hide CanGrow, Spec.GrowLast, Stored, Stale;
      var w := memory.words;
      ghost var h, w0 := State(), w[..];
      newPtr := ptr;
      FollowedByFree(ptr, size);
      assert !IsBlockAllocated(NextBlkp(ptr, w[Hdrp(ptr)]));
      InvHolds();
      GrownBlock(h, ptr, size);
      var bodySize;
      if size <= DSIZE {
        bodySize := 2 * DSIZE;
      } else {
        bodySize := 8 * ((size + DSIZE + (DSIZE - 1)) % 0x1_0000_0000 / 8);
      }
      bodySize := bodySize + PADDING;
      assert bodySize == Spec.PaddedSize(size);
      var ok := ExtendLast(ptr, bodySize, size);
      if !ok {
        return NULL;
      }
      ghost var w1 := w[..];
      TagEpilogue(newPtr, bodySize, h.blocks);
      SamePayloadsThen(w0, w1, w[..], Live(h.blocks), Live(h.blocks));
    }

    /** The test that leads to this path */
    lemma FollowedByFree(ptr: int, n: nat)
      requires Valid() && CanGrow(State(), ptr, n)
      ensures blocks != [] && 2 <= ptr <= memory.words.Length
      ensures var next := NextBlkp(ptr, memory.words[Hdrp(ptr)]);
              1 <= next <= memory.words.Length && !IsBlockAllocated(next)
    {
      hide Image, Wf, NoTwoFree, Boundary, Live, GetSize, GetAlloc, GetTag, Even, CanGrow, Spec.Shortfall;
      GrowthFacts(ptr, n);
      var k := Spec.LastAllocated(blocks);
      ReadHeaderAt(k);
      ReadHeaderAt(k + 1);
    }

    /** What `GrowRefines` says of the grown heap */
    lemma GrownBlock(h: Heap, p: int, n: nat)
      requires Inv(h) && CanGrow(h, p, n)
      ensures h.blocks != [] && Wf(h.blocks)
      ensures var (h', q) := Spec.GrowLast(h, n);
              && h'.blocks != [] && h'.rover == h.rover
              && (Boundary(h'.blocks, h'.rover) <==> q == NULL || RoverStays(h))
              && (q != NULL ==> q == p && h'.blocks[|h'.blocks| - 1].start == p && Brk(h.blocks) <= Brk(h'.blocks))
    {
      hide NoTwoFree, Boundary, Live, Tiles, Spec.GrowLast, Spec.AdjustedSize;
      GrowRefines(h, p, n);
      ShortfallFacts(h, p, n);
    }

    /** The tag that `mm_realloc` sets behind a block with little room to spare */
    method TagEpilogue(newPtr: int, bodySize: int, ghost bs: seq<Block>)
      requires Stored() && blocks != [] && blocks[|blocks| - 1].start == newPtr
      requires bs != [] && Wf(bs) && Brk(bs) <= Brk(blocks)
      requires Remains(memory.words[..], bs)
      modifies memory.words
      ensures Remains(memory.words[..], bs)
      ensures Stored()
      ensures SamePayloads(old(memory.words[..]), memory.words[..], Live(bs))
    {
      var w := memory.words;
      ghost var w0 := w[..];
      ReadHeaderAt(|blocks| - 1);
      ReadHeaderAt(|blocks|);
      var remainingSize := GetSize(w[Hdrp(newPtr)]) - bodySize;
      if remainingSize < 2 * PADDING {
        var next := Hdrp(NextBlkp(newPtr, w[Hdrp(newPtr)]));
        w[next] := SetTag(w[next]);
        ImageEpilogueTag(w0, blocks, w[next]);
        OutsidePayloads(w0, next, w[next], bs);
        assert w[..] == w0[next := w[next]];
      }
    }
  }
}
