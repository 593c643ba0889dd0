/** What every run of the allocator keeps, and what it promises its clients. */
module HeapTheorems {
  import opened Options
  import opened HeapLayout
  import opened HeapSpec

  /** The blocks handed out to the client. */
  function Live(bs: seq<Block>): set<Block> {
    set b | b in bs && b.alloc && b.len != PROLOGUE_WORDS
  }

  /** The largest request whose rounding does not wrap around. */
  const SAFE_REQUEST := WORD_RANGE - 16

  lemma RoundingIsTight(n: nat)
    requires 1 <= n <= SAFE_REQUEST
    ensures AdjustedSize(n) % 8 == 0 && AdjustedSize(n) >= 2 * DSIZE
    ensures n + 8 <= AdjustedSize(n) <= n + 15
    ensures 4 * Need(n) == AdjustedSize(n) && Need(n) % 2 == 0 && Need(n) >= MIN_WORDS
  {
    if n > DSIZE {
      assert (n + 15) % 0x1_0000_0000 == n + 15;
      var q := (n + 15) / 8;
      assert AdjustedSize(n) == 8 * q && Need(n) == 2 * q;
    }
  }

  /** Rounding meets its purpose exactly for the requests up to SAFE_REQUEST; the fifteen
      larger 32-bit requests wrap around to less than the smallest block. */
  lemma RoundingWraps(n: nat)
    requires 1 <= n < WORD_RANGE
    ensures AdjustedSize(n) >= n + 8 <==> n <= SAFE_REQUEST
    ensures n > SAFE_REQUEST ==> AdjustedSize(n) < 2 * DSIZE
  {
  }

  lemma CoalesceKeepsInv(h: Heap, k: nat)
    requires Wf(h.blocks) && Boundary(h.blocks, h.rover)
    requires 1 <= k < |h.blocks| && !h.blocks[k].alloc
    requires NoTwoFree(h.blocks[..k]) && NoTwoFree(h.blocks[k + 1..])
    ensures Inv(Coalesce(h, k))
    ensures Coalesce(h, k).blocks[0] == h.blocks[0]
    ensures Brk(Coalesce(h, k).blocks) == Brk(h.blocks)
    ensures Live(Coalesce(h, k).blocks) == Live(h.blocks)
  {
    hide Wf, NoTwoFree, Boundary, Live;
    CoalesceKeepsWf(h, k);
    MergeKeepsNoTwoFree(h.blocks, k);
    CoalesceKeepsLive(h, k);
  }

  lemma CoalesceKeepsLive(h: Heap, k: nat)
    requires 1 <= k < |h.blocks| && !h.blocks[k].alloc
    ensures Live(Coalesce(h, k).blocks) == Live(h.blocks)
  {
  }

  /** Whatever the neighbours of the other blocks are, coalescing keeps the tiling and the rover. */
  lemma CoalesceKeepsWf(h: Heap, k: nat)
    requires Wf(h.blocks) && Boundary(h.blocks, h.rover)
    requires 1 <= k < |h.blocks| && !h.blocks[k].alloc
    ensures var h' := Coalesce(h, k);
            && Wf(h'.blocks) && Boundary(h'.blocks, h'.rover)
            && h'.blocks[0] == h.blocks[0] && Brk(h'.blocks) == Brk(h.blocks)
  {
    var bs := h.blocks;
    var i, j, b := MergeFirst(bs, k), MergeLast(bs, k), Merged(bs, k);
    MergedCovers(bs, k);
    TilesOne(b);
    WfSplice(bs, i, j + 1, [b]);
    MergeKeepsRover(h, k);
  }

  lemma MergedCovers(bs: seq<Block>, k: nat)
    requires Wf(bs) && 1 <= k < |bs| && !bs[k].alloc
    ensures var i, j, b := MergeFirst(bs, k), MergeLast(bs, k), Merged(bs, k);
            && 1 <= i <= k <= j < |bs|
            && (forall x :: i <= x <= j ==> !bs[x].alloc && b.start <= bs[x].start < bs[x].End() <= b.End())
            && WellSized(b, bs[0].start) && b.start == bs[i].start && b.End() == bs[j].End()
  {
    hide Tiles;
    var i, j := MergeFirst(bs, k), MergeLast(bs, k);
    if i < k { StartsOrdered(bs, i, k); }
    if k < j { StartsOrdered(bs, k, j); }
    forall x | i <= x <= j
      ensures !bs[x].alloc && bs[i].start <= bs[x].start < bs[x].End() <= bs[j].End()
      ensures WellSized(bs[x], bs[0].start)
    {
      assert bs[x] in bs;
      assert x == i || x == k || x == j;
    }
    EvenSpan(bs[i], bs[j]);
  }

  lemma EvenSpan(a: Block, b: Block)
    requires a.start % 2 == 0 && b.start % 2 == 0 && b.len % 2 == 0
    ensures (b.End() - a.start) % 2 == 0
  {
  }

  /** Coalescing the last block leaves the merged block last. */
  lemma MergedIsLast(bs: seq<Block>, b: Block, rover: int)
    ensures var h' := Coalesce(Heap(bs + [b], rover), |bs|);
            h'.blocks != [] && h'.blocks[|h'.blocks| - 1] == Merged(bs + [b], |bs|)
  {
  }

  /** The merged block in each of the four cases. */
  lemma MergedCases(bs: seq<Block>, k: nat)
    requires Wf(bs) && 1 <= k < |bs| && !bs[k].alloc
    ensures var prevFree, nextFree := !bs[k - 1].alloc, k + 1 < |bs| && !bs[k + 1].alloc;
            var start := if prevFree then bs[k].start - bs[k - 1].len else bs[k].start;
            Merged(bs, k) == Block(start, (if prevFree then bs[k - 1].len else 0) + bs[k].len
                                          + (if nextFree then bs[k + 1].len else 0), false)
  {
    var m := TilesSplit(bs, k, bs[0].start, Brk(bs));
    var m' := TilesSplit(bs, k + 1, bs[0].start, Brk(bs));
  }

  lemma MergeKeepsNoTwoFree(bs: seq<Block>, k: nat)
    requires 1 <= k < |bs| && !bs[k].alloc
    requires NoTwoFree(bs[..k]) && NoTwoFree(bs[k + 1..])
    ensures NoTwoFree(Splice(bs, MergeFirst(bs, k), MergeLast(bs, k) + 1, [Merged(bs, k)]))
  {
  }

  lemma MergeKeepsRover(h: Heap, k: nat)
    requires Wf(h.blocks) && Boundary(h.blocks, h.rover)
    requires 1 <= k < |h.blocks| && !h.blocks[k].alloc
    ensures Boundary(Coalesce(h, k).blocks, Coalesce(h, k).rover)
  {
    var bs := h.blocks;
    var i, j, b := MergeFirst(bs, k), MergeLast(bs, k), Merged(bs, k);
    MergedCovers(bs, k);
    var x := IndexOf(bs, h.rover);
    var bs' := Coalesce(h, k).blocks;
    assert bs'[i] == b;
    if x < i {
      StartsOrdered(bs, x, i);
      assert bs'[x] == bs[x];
    } else if x > j {
      StartsOrdered(bs, j, x);
      assert bs'[x - j + i] == bs[x];
    }
  }

  // ---------------------------------------------------------------- free

  /** p is a payload address the client holds. */
  predicate LiveAt(bs: seq<Block>, p: int) {
    Holds(Live(bs), p)
  }

  predicate Holds(live: set<Block>, p: int) {
    exists b :: b in live && b.start == p
  }

  function BlockAt(bs: seq<Block>, p: int): Block
    requires Boundary(bs, p)
  {
    bs[IndexOf(bs, p)]
  }

  lemma LiveIndex(bs: seq<Block>, p: int)
    requires Wf(bs) && LiveAt(bs, p)
    ensures Boundary(bs, p)
    ensures 1 <= IndexOf(bs, p) && BlockAt(bs, p) in Live(bs)
    ensures BlockAt(bs, p).alloc && BlockAt(bs, p).len >= MIN_WORDS
    ensures p != NULL
  {
    var b :| b in Live(bs) && b.start == p;
    var x :| 0 <= x < |bs| && bs[x] == b;
    StartsDistinct(bs, x, IndexOf(bs, p));
    TilesBounds(bs, bs[0].start, Brk(bs));
    assert bs[0] in bs;
  }

  lemma FreedKeepsWf(bs: seq<Block>, k: nat)
    requires Wf(bs) && 1 <= k < |bs| && bs[k].len >= MIN_WORDS
    ensures Wf(Freed(bs, k)) && Brk(Freed(bs, k)) == Brk(bs)
  {
    var b := bs[k].(alloc := false);
    assert bs[k] in bs;
    TilesBounds(bs, bs[0].start, Brk(bs));
    TilesOne(b);
    WfSplice(bs, k, k + 1, [b]);
    assert Freed(bs, k) == Splice(bs, k, k + 1, [b]);
  }

  /** Freeing a live payload keeps the invariant and the break, and removes exactly that
      payload from the live ones. */
  lemma FreeRefines(h: Heap, p: int)
    requires Inv(h) && LiveAt(h.blocks, p)
    ensures Inv(Free(h, p))
    ensures Live(Free(h, p).blocks) == Live(h.blocks) - {BlockAt(h.blocks, p)}
    ensures Free(h, p).blocks[0] == h.blocks[0] && Brk(Free(h, p).blocks) == Brk(h.blocks)
  {
    LiveIndex(h.blocks, p);
    var bs := h.blocks;
    var k := IndexOf(bs, p);
    FreedKeepsWf(bs, k);
    var bs' := Freed(bs, k);
    FreedKeepsRover(bs, k, h.rover);
    assert bs'[..k] == bs[..k] && bs'[k + 1..] == bs[k + 1..];
    CoalesceKeepsInv(Heap(bs', h.rover), k);
    FreedRemovesOne(bs, k);
  }

  lemma FreedKeepsRover(bs: seq<Block>, k: nat, rover: int)
    requires k < |bs| && Boundary(bs, rover)
    ensures Boundary(Freed(bs, k), rover)
  {
    assert Freed(bs, k)[IndexOf(bs, rover)] in Freed(bs, k);
  }

  lemma FreedRemovesOne(bs: seq<Block>, k: nat)
    requires Wf(bs) && 1 <= k < |bs| && bs[k] in Live(bs)
    ensures Live(Freed(bs, k)) == Live(bs) - {bs[k]}
  {
    var bs' := Freed(bs, k);
    forall c ensures c in Live(bs') <==> c in Live(bs) && c != bs[k] {
      if c in Live(bs) && c != bs[k] {
        var x :| 0 <= x < |bs| && bs[x] == c;
        assert bs'[x] == c;
      }
      if c in Live(bs') {
        var x :| 0 <= x < |bs'| && bs'[x] == c;
        assert x != k;
        if c == bs[k] { StartsDistinct(bs, x, k); }
      }
    }
  }

  // ---------------------------------------------------------------- malloc

  lemma PlacedCovers(b: Block, need: int, lo: int)
    requires WellSized(b, lo) && !b.alloc && need % 2 == 0 && MIN_WORDS <= need <= b.len
    ensures Tiles(Placed(b, need), b.start, b.End())
    ensures forall c :: c in Placed(b, need) ==> WellSized(c, lo)
    ensures var c := Placed(b, need)[0]; c.start == b.start && c.alloc && need <= c.len <= need + 2
  {
  }

  /** Allocating a free block that is large enough: tiling, the no-two-free rule and the
      rover survive, and exactly one payload becomes live. */
  lemma PlaceKeepsInv(h: Heap, k: nat, need: int)
    requires Inv(h) && k < |h.blocks| && Fits(h.blocks[k], need)
    requires need % 2 == 0 && need >= MIN_WORDS
    ensures Inv(Heap(Place(h.blocks, k, need), h.rover))
    ensures var bs', b := Place(h.blocks, k, need), h.blocks[k];
            var c := Block(b.start, if b.len - need >= 4 then need else b.len, true);
            && k < |bs'| && bs'[k] == c && bs'[0] == h.blocks[0] && Brk(bs') == Brk(h.blocks)
            && c !in Live(h.blocks) && Live(bs') == Live(h.blocks) + {c}
  {
    var bs := h.blocks;
    assert bs[k] in bs;
    PlacedCovers(bs[k], need, bs[0].start);
    WfSplice(bs, k, k + 1, Placed(bs[k], need));
    PlaceKeepsNoTwoFree(bs, k, need);
    PlaceKeepsRover(bs, k, need, h.rover);
    PlaceAddsLive(bs, k, need);
  }

  lemma PlaceAddsLive(bs: seq<Block>, k: nat, need: int)
    requires Wf(bs) && k < |bs| && Fits(bs[k], need) && need >= MIN_WORDS
    ensures var c := Placed(bs[k], need)[0];
            c !in Live(bs) && Live(Place(bs, k, need)) == Live(bs) + {c}
  {
    var cs, bs' := Placed(bs[k], need), Place(bs, k, need);
    assert bs'[k] == cs[0];
    forall c ensures c in Live(bs') <==> c in Live(bs) || c == cs[0] {
      if c in Live(bs) {
        var x :| 0 <= x < |bs| && bs[x] == c;
        assert x != k;
        assert bs'[if x < k then x else x - 1 + |cs|] == c;
      }
    }
    if cs[0] in Live(bs) {
      var x :| 0 <= x < |bs| && bs[x] == cs[0];
      StartsDistinct(bs, x, k);
    }
  }

  lemma PlaceKeepsNoTwoFree(bs: seq<Block>, k: nat, need: int)
    requires NoTwoFree(bs) && k < |bs| && !bs[k].alloc
    ensures NoTwoFree(Place(bs, k, need))
  {
  }

  lemma PlaceKeepsRover(bs: seq<Block>, k: nat, need: int, rover: int)
    requires k < |bs| && Boundary(bs, rover)
    ensures Boundary(Place(bs, k, need), rover)
  {
  }

  /** Extending succeeds exactly when the heap area has room; then the last block is free
      and large enough, and no payload changes hands. */
  lemma ExtendKeepsInv(h: Heap, words: int)
    requires Inv(h) && words % 2 == 0 && words >= MIN_WORDS
    ensures Extend(h, words).Some? <==> 4 * (Brk(h.blocks) + words) <= MAX_HEAP
    ensures Extend(h, words).Some? ==>
              var h1 := Extend(h, words).value;
              && Inv(h1) && h1.blocks[0] == h.blocks[0]
              && Brk(h1.blocks) == Brk(h.blocks) + words
              && Live(h1.blocks) == Live(h.blocks)
              && Fits(h1.blocks[|h1.blocks| - 1], words)
  {
    if Extend(h, words).Some? {
      var bs := h.blocks;
      var b := Block(Brk(bs), words, false);
      assert bs[|bs| - 1] in bs;
      WfAppend(bs, b);
      var bs1 := bs + [b];
      assert bs1[IndexOf(bs, h.rover)] in bs1;
      assert bs1[..|bs|] == bs && bs1[|bs| + 1..] == [];
      CoalesceKeepsInv(Heap(bs1, h.rover), |bs|);
      MergedCovers(bs1, |bs|);
      assert Live(bs1) == Live(bs);
    }
  }

  /** What one request does.  It fails exactly when nothing fits and the heap area cannot
      grow, and then changes nothing; otherwise it returns the 8-aligned address of a
      payload that was not live before, in a block of n + 8 to n + 23 bytes, and no other
      payload changes hands. */
  lemma MallocRefines(h: Heap, n: nat)
    requires Inv(h) && 1 <= n <= SAFE_REQUEST
    ensures var (h', p) := Malloc(h, n);
            && Inv(h') && h'.blocks[0] == h.blocks[0]
            && (p == NULL <==> !AnyFit(h.blocks, Need(n))
                               && 4 * Brk(h.blocks) + Max(AdjustedSize(n), CHUNKSIZE) > MAX_HEAP)
            && (p == NULL ==> h' == h)
            && (p != NULL ==> Granted(h, h', p, n))
  {
    hide Tiles, NoTwoFree, Boundary, Live, Place, FindFit, Granted, AdjustedSize, AnyFit;
    var need := Need(n);
    RoundingIsTight(n);
    FindFitPolicy(h, need);
    var (fit, rover) := FindFit(h, need);
    ExtendKeepsInv(h, Max(need, CHUNKSIZE / 4));
    if fit.Some? {
      PlaceGrants(Heap(h.blocks, rover), fit.value, need, n);
      GrantedSame(h, rover, Malloc(h, n).0, h.blocks[fit.value].start, n);
    } else if Extend(h, Max(need, CHUNKSIZE / 4)).Some? {
      var h1 := Extend(h, Max(need, CHUNKSIZE / 4)).value;
      PlaceGrants(h1, |h1.blocks| - 1, need, n);
      GrantedAfter(h, h1, Malloc(h, n).0, h1.blocks[|h1.blocks| - 1].start, n);
    }
  }

  lemma GrantedSame(h: Heap, rover: int, h': Heap, p: int, n: nat)
    requires Granted(Heap(h.blocks, rover), h', p, n)
    ensures Granted(h, h', p, n)
  {
  }

  lemma GrantedAfter(h: Heap, h1: Heap, h': Heap, p: int, n: nat)
    requires Granted(h1, h', p, n) && Live(h1.blocks) == Live(h.blocks)
    ensures Granted(h, h', p, n)
  {
  }

  /** The heap h' differs from h, for the client, in one new payload at p that is big
      enough for n bytes and wastes little. */
  ghost predicate Granted(h: Heap, h': Heap, p: int, n: nat) {
    && Boundary(h'.blocks, p)
    && var b := BlockAt(h'.blocks, p);
    && b !in Live(h.blocks) && Live(h'.blocks) == Live(h.blocks) + {b}
    && p % 2 == 0
    && n + 8 <= b.Size() <= n + 23
  }

  lemma PlaceGrants(h: Heap, k: nat, need: int, n: nat)
    requires Inv(h) && 1 <= n <= SAFE_REQUEST && need == Need(n)
    requires k < |h.blocks| && Fits(h.blocks[k], need)
    ensures var h' := Heap(Place(h.blocks, k, need), h.rover);
            Inv(h') && h'.blocks[0] == h.blocks[0] && Granted(h, h', h.blocks[k].start, n)
    ensures h.blocks[k].start != NULL
  {
    RoundingIsTight(n);
    PlaceKeepsInv(h, k, need);
    var bs' := Place(h.blocks, k, need);
    assert bs'[k] in bs' && h.blocks[k] in h.blocks;
    PlacedCovers(h.blocks[k], need, h.blocks[0].start);
    StartsDistinct(bs', k, IndexOf(bs', h.blocks[k].start));
    TilesBounds(bs', bs'[0].start, Brk(bs'));
  }

  lemma BlocksFit(bs: seq<Block>)
    requires Wf(bs)
    ensures forall b :: b in bs ==> b.Size() <= MAX_HEAP
  {
    TilesBounds(bs, bs[0].start, Brk(bs));
  }

  lemma PlacedFits(bs: seq<Block>, k: nat, need: int)
    requires Wf(bs) && k < |bs| && 0 <= need <= bs[k].len
    ensures forall b :: b in Place(bs, k, need) ==> b.Size() <= MAX_HEAP
  {
    hide Wf;
    BlocksFit(bs);
    assert bs[k] in bs;
  }

  /** p is the address of an allocated block with room for n bytes and its two tags. */
  ghost predicate Fulfilled(bs: seq<Block>, p: int, n: nat) {
    exists b :: b in bs && b.start == p && b.alloc && n + 8 <= b.Size()
  }

  /** Over all 32-bit requests, those whose rounding wraps around included: malloc answers NULL if
      and only if no free block has the rounded size and the heap area has no room for more. */
  lemma MallocNullIff(h: Heap, n: nat)
    requires Inv(h) && 1 <= n < WORD_RANGE
    ensures Malloc(h, n).1 == NULL <==> !AnyFit(h.blocks, Need(n))
                                        && 4 * Brk(h.blocks) + Max(AdjustedSize(n), CHUNKSIZE) > MAX_HEAP
  {
    hide Tiles, WellSized, NoTwoFree, Boundary, Place, FindFit, Extend, AnyFit, AdjustedSize;
    if n <= SAFE_REQUEST {
      MallocRefines(h, n);
    } else {
      WrappedSize(n);
      FindFitPolicy(h, Need(n));
      ExtendKeepsInv(h, CHUNKSIZE / 4);
      NoNullStart(h.blocks);
      if Extend(h, CHUNKSIZE / 4).Some? { NoNullStart(Extend(h, CHUNKSIZE / 4).value.blocks); }
    }
  }

  lemma NoNullStart(bs: seq<Block>)
    requires Wf(bs)
    ensures forall k :: 0 <= k < |bs| ==> bs[k].start != NULL
  {
    TilesBounds(bs, bs[0].start, Brk(bs));
    assert forall k :: 0 <= k < |bs| ==> bs[k] in bs;
  }

  /** What malloc returns has room for the request if and only if the request is at most
      SAFE_REQUEST; what answers a larger one comes from a wrapped size of 0 or 8. */
  lemma MallocFulfilledIff(h: Heap, n: nat)
    requires Inv(h) && 1 <= n < WORD_RANGE
    ensures var (h', p) := Malloc(h, n); p != NULL ==> (Fulfilled(h'.blocks, p, n) <==> n <= SAFE_REQUEST)
  {
    hide Tiles, WellSized, NoTwoFree, Boundary, Place, FindFit, Extend;
    if Malloc(h, n).1 == NULL {
    } else if n <= SAFE_REQUEST {
      MallocFulfilled(h, n);
    } else {
      RoundingWraps(n);
      WrappedSize(n);
      FindFitPolicy(h, Need(n));
      ExtendKeepsInv(h, CHUNKSIZE / 4);
      var fit := FindFit(h, Need(n)).0;
      if fit.Some? {
        PlacedFits(h.blocks, fit.value, Need(n));
      } else {
        var h1 := Extend(h, CHUNKSIZE / 4).value;
        PlacedFits(h1.blocks, |h1.blocks| - 1, Need(n));
      }
    }
  }

  lemma MallocFulfilled(h: Heap, n: nat)
    requires Inv(h) && 1 <= n <= SAFE_REQUEST && Malloc(h, n).1 != NULL
    ensures Fulfilled(Malloc(h, n).0.blocks, Malloc(h, n).1, n)
  {
    MallocRefines(h, n);
    assert BlockAt(Malloc(h, n).0.blocks, Malloc(h, n).1) in Live(Malloc(h, n).0.blocks);
  }

  lemma WrappedSize(n: nat)
    requires SAFE_REQUEST < n < WORD_RANGE
    ensures AdjustedSize(n) == if n < WORD_RANGE - 7 then 0 else 8
    ensures Need(n) == AdjustedSize(n) / 4 && (Need(n) == 0 || Need(n) == 2)
  {
    assert (n + 15) % 0x1_0000_0000 == n + 15 - WORD_RANGE;
  }

  // ---------------------------------------------------------------- one call undoes another

  lemma FreeingMergesBack(bs: seq<Block>, k: nat, need: int)
    requires NoTwoFree(bs) && 1 <= k < |bs| && !bs[k].alloc
    ensures k < |Place(bs, k, need)|
    ensures var f := Freed(Place(bs, k, need), k);
            && MergeFirst(f, k) == k && Merged(f, k) == bs[k]
            && Splice(f, k, MergeLast(f, k) + 1, [bs[k]]) == bs
  {
  }

  lemma RoverNotInside(bs: seq<Block>, k: nat, rover: int)
    requires Wf(bs) && k < |bs| && Boundary(bs, rover)
    ensures SettledRover(rover, bs[k]) == rover
  {
    var x := IndexOf(bs, rover);
    if x < k { StartsOrdered(bs, x, k); }
    if k < x { StartsOrdered(bs, k, x); }
  }

  /** Between two allocated neighbours there is nothing to merge, and the rover stays. */
  lemma CoalesceAlone(h: Heap, k: nat)
    requires Wf(h.blocks) && Boundary(h.blocks, h.rover) && k < |h.blocks| && !h.blocks[k].alloc
    requires (k > 0 ==> h.blocks[k - 1].alloc) && (k + 1 < |h.blocks| ==> h.blocks[k + 1].alloc)
    ensures Coalesce(h, k) == h && Merged(h.blocks, k) == h.blocks[k]
  {
    RoverNotInside(h.blocks, k, h.rover);
    assert Splice(h.blocks, k, k + 1, [h.blocks[k]]) == h.blocks;
  }

  lemma FreeUndoesPlace(h: Heap, k: nat, need: int)
    requires Inv(h) && k < |h.blocks| && Fits(h.blocks[k], need)
    requires need % 2 == 0 && need >= MIN_WORDS
    ensures var h' := Heap(Place(h.blocks, k, need), h.rover);
            Boundary(h'.blocks, h.blocks[k].start) && Free(h', h.blocks[k].start) == h
  {
    var bs, bs' := h.blocks, Place(h.blocks, k, need);
    var p := bs[k].start;
    PlaceKeepsInv(h, k, need);
    assert bs'[k] == Placed(bs[k], need)[0] && bs'[k] in bs';
    StartsDistinct(bs', k, IndexOf(bs', p));
    FreeingMergesBack(bs, k, need);
    RoverNotInside(bs, k, h.rover);
    TilesBounds(bs, bs[0].start, Brk(bs));
    assert bs[k] in bs;
  }

  /** Freeing what malloc just returned gives back the blocks as they were, or as the heap
      extension left them. */
  lemma FreeUndoesMalloc(h: Heap, n: nat)
    requires Inv(h) && 1 <= n <= SAFE_REQUEST && Malloc(h, n).1 != NULL
    ensures Boundary(Malloc(h, n).0.blocks, Malloc(h, n).1)
    ensures var (h', p) := Malloc(h, n); var need := Need(n);
            if AnyFit(h.blocks, need)
            then Free(h', p) == Heap(h.blocks, FindFit(h, need).1)
            else Extend(h, Max(need, CHUNKSIZE / 4)) == Some(Free(h', p))
  {
    MallocRefines(h, n);
    RoundingIsTight(n);
    FindFitPolicy(h, Need(n));
    var fit := FindFit(h, Need(n)).0;
    if fit.Some? {
      FreeUndoesFit(h, n);
    } else {
      FreeUndoesExtension(h, n);
    }
  }

  lemma FreeUndoesFit(h: Heap, n: nat)
    requires Inv(h) && 1 <= n <= SAFE_REQUEST && FindFit(h, Need(n)).0.Some?
    ensures var (h', p) := Malloc(h, n);
            Boundary(h'.blocks, p) && Free(h', p) == Heap(h.blocks, FindFit(h, Need(n)).1)
  {
    RoundingIsTight(n);
    FindFitPolicy(h, Need(n));
    var (fit, rover) := FindFit(h, Need(n));
    assert h.blocks[fit.value] in h.blocks;
    FreeUndoesPlace(Heap(h.blocks, rover), fit.value, Need(n));
  }

  lemma FreeUndoesExtension(h: Heap, n: nat)
    requires Inv(h) && 1 <= n <= SAFE_REQUEST
    requires FindFit(h, Need(n)).0.None? && Extend(h, Max(Need(n), CHUNKSIZE / 4)).Some?
    ensures var (h', p) := Malloc(h, n);
            Boundary(h'.blocks, p) && Extend(h, Max(Need(n), CHUNKSIZE / 4)) == Some(Free(h', p))
  {
    hide Tiles, NoTwoFree, Boundary, Free, Place, FindFit, AdjustedSize, Live;
    RoundingIsTight(n);
    var words := Max(Need(n), CHUNKSIZE / 4);
    ExtendKeepsInv(h, words);
    var h1 := Extend(h, words).value;
    FreeUndoesPlace(h1, |h1.blocks| - 1, Need(n));
    var k := |h1.blocks| - 1;
    assert Malloc(h, n) == (Heap(Place(h1.blocks, k, Need(n)), h1.rover), h1.blocks[k].start);
  }

  // ---------------------------------------------------------------- consequences of the invariant

  function TotalSize(bs: seq<Block>): int {
    if bs == [] then 0 else bs[0].Size() + TotalSize(bs[1..])
  }

  lemma {:induction false} TilesTotal(bs: seq<Block>, lo: int, hi: int)
    requires Tiles(bs, lo, hi)
    ensures TotalSize(bs) == 4 * (hi - lo)
  {
    if bs != [] {
      TilesTotal(bs[1..], bs[0].End(), hi);
    }
  }

  /** The block sizes and the words below the prologue's payload add up to the heap size. */
  lemma HeapSizeIsBlocks(h: Heap)
    requires Inv(h)
    ensures TotalSize(h.blocks) + 4 * h.blocks[0].start == 4 * Brk(h.blocks)
  {
    TilesTotal(h.blocks, h.blocks[0].start, Brk(h.blocks));
  }

  /** Live payloads lie inside the heap, clear of every boundary tag, and share no word. */
  lemma LivePayloadsDisjoint(h: Heap, b: Block, c: Block)
    requires Inv(h) && b in Live(h.blocks) && c in h.blocks && b != c
    ensures h.blocks[0].End() <= b.start && b.start % 2 == 0 && b.End() <= Brk(h.blocks)
    ensures b.End() <= c.start || c.End() <= b.start
    ensures !exists i :: b.Payload(i) && c.Payload(i)
  {
    var bs := h.blocks;
    var x :| 0 <= x < |bs| && bs[x] == b;
    var y :| 0 <= y < |bs| && bs[y] == c;
    if x < y { StartsOrdered(bs, x, y); }
    if y < x { StartsOrdered(bs, y, x); }
    assert bs[0] in bs;
    assert bs[0].len == PROLOGUE_WORDS;
    assert x > 0;
    StartsOrdered(bs, 0, x);
    TilesBounds(bs, bs[0].start, Brk(bs));
  }

  lemma SomethingLive(h: Heap)
    requires Inv(h) && |h.blocks| > 2
    ensures exists b :: b in Live(h.blocks)
  {
    var bs := h.blocks;
    var i := if bs[1].alloc then 1 else 2;
    assert bs[i].alloc;
    StartsOrdered(bs, 0, i);
    assert bs[i] in bs;
    assert bs[i] in Live(bs);
  }

  /** Once everything is freed, the heap past the prologue is a single free block. */
  lemma EverythingFreedIsOneBlock(h: Heap)
    requires Inv(h) && Live(h.blocks) == {}
    ensures |h.blocks| <= 2
    ensures |h.blocks| == 2 ==> h.blocks[1] == Block(h.blocks[0].End(), Brk(h.blocks) - h.blocks[0].End(), false)
  {
    var bs := h.blocks;
    if |bs| > 2 {
      SomethingLive(h);
    } else if |bs| == 2 {
      var m := TilesSplit(bs, 1, bs[0].start, Brk(bs));
      StartsOrdered(bs, 0, 1);
      assert bs[1] in bs && bs[1] !in Live(bs);
    }
  }

  // ---------------------------------------------------------------- growing the last block

  /** Behind an allocated last block there is nothing to merge with. */
  lemma ExtendBehindLive(h: Heap, words: int)
    requires Inv(h) && words % 2 == 0 && words >= MIN_WORDS
    requires h.blocks[|h.blocks| - 1].alloc && 4 * (Brk(h.blocks) + words) <= MAX_HEAP
    ensures Extend(h, words) == Some(Heap(h.blocks + [Block(Brk(h.blocks), words, false)], h.rover))
  {
    var b := Block(Brk(h.blocks), words, false);
    var bs1 := h.blocks + [b];
    assert h.blocks[|h.blocks| - 1] in h.blocks;
    WfAppend(h.blocks, b);
    assert bs1[IndexOf(h.blocks, h.rover)] in bs1;
    CoalesceAlone(Heap(bs1, h.rover), |h.blocks|);
  }

  /** Behind a free last block the new one is merged with it. */
  lemma ExtendBehindFree(h: Heap, words: int)
    requires Inv(h) && words % 2 == 0 && words >= MIN_WORDS && 4 * (Brk(h.blocks) + words) <= MAX_HEAP
    requires !h.blocks[|h.blocks| - 1].alloc
    ensures |h.blocks| > 1
    ensures var n := |h.blocks| - 1; var start := h.blocks[n].start;
            Extend(h, words)
            == Some(Heap(h.blocks[..n] + [Block(start, Brk(h.blocks) + words - start, false)], h.rover))
  {
    hide Wf, NoTwoFree;
    var bs, n := h.blocks, |h.blocks| - 1;
    LastFree(h);
    var bs1 := bs + [Block(Brk(bs), words, false)];
    assert bs1[n - 1] == bs[n - 1] && bs1[n] == bs[n];
    assert bs1[..n] == bs[..n] && bs1[n + 2..] == [];
    assert MergeFirst(bs1, n + 1) == n && MergeLast(bs1, n + 1) == n + 1;
    var x := IndexOf(bs, h.rover);
    if x < n { StartsOrdered(bs, x, n); }
    var h1 := Coalesce(Heap(bs1, h.rover), n + 1);
    assert h1.blocks == bs[..n] + [Block(bs[n].start, Brk(bs) + words - bs[n].start, false)];
    assert h1.rover == h.rover;
  }

  lemma LastFree(h: Heap)
    requires Inv(h) && !h.blocks[|h.blocks| - 1].alloc
    ensures |h.blocks| > 1 && h.blocks[|h.blocks| - 2].alloc
  {
  }

  /** The free block behind block k once there are `words` more words, merged with what was free */
  function Tail(bs: seq<Block>, k: nat, words: int): Block
    requires k < |bs|
  {
    Block(bs[k].End(), Brk(bs) + words - bs[k].End(), false)
  }

  lemma EndOfBlock(bs: seq<Block>, k: nat)
    requires Wf(bs) && k < |bs|
    ensures bs[k].End() == if k + 1 < |bs| then bs[k + 1].start else Brk(bs)
  {
    var m := TilesSplit(bs, k + 1, bs[0].start, Brk(bs));
  }

  /** Whether or not the heap ends in a free block, extending it leaves one free block behind the
      last allocated one, and the rover where it was. */
  lemma ExtendBehindLast(h: Heap, words: int)
    requires Inv(h) && words % 2 == 0 && words >= MIN_WORDS && 4 * (Brk(h.blocks) + words) <= MAX_HEAP
    ensures var k := LastAllocated(h.blocks);
            Extend(h, words) == Some(Heap(h.blocks[..k + 1] + [Tail(h.blocks, k, words)], h.rover))
  {
    hide Wf, NoTwoFree, Extend;
    var k := LastAllocated(h.blocks);
    EndOfBlock(h.blocks, k);
    if h.blocks[|h.blocks| - 1].alloc {
      ExtendBehindLive(h, words);
      assert h.blocks[..k + 1] == h.blocks;
    } else {
      LastFree(h);
      ExtendBehindFree(h, words);
    }
  }

  lemma AbsorbedBlock(bs: seq<Block>, f: Block)
    requires bs != [] && bs[|bs| - 1] in Live(bs) && Wf(bs + [f])
    ensures |bs| > 1 && f.start == bs[|bs| - 1].End()
  {
    LiveNotPrologue(bs + [f], |bs| - 1) by { assert (bs + [f])[|bs| - 1] in bs + [f]; }
    EndOfBlock(bs + [f], |bs| - 1);
  }

  /** Giving the free block that ends the heap to the live block before it: tiling, the
      no-two-free rule and the break survive, one live block is replaced, and the rover stays a
      boundary if and only if it was not at the block that is gone. */
  lemma AbsorbTail(bs: seq<Block>, f: Block, rover: int)
    requires bs != [] && bs[|bs| - 1] in Live(bs) && !f.alloc
    requires Wf(bs + [f]) && NoTwoFree(bs + [f])
    ensures var k := |bs| - 1; var b' := bs[k].(len := bs[k].len + f.len); var bs' := bs[k := b'];
            && Wf(bs') && NoTwoFree(bs') && bs'[0] == bs[0] && Brk(bs') == Brk(bs + [f])
            && Live(bs') == Live(bs) - {bs[k]} + {b'}
            && Live(bs + [f]) == Live(bs)
            && (Boundary(bs', rover) <==> Boundary(bs + [f], rover) && rover != f.start)
  {
    hide NoTwoFree, Boundary;
    var k, bs1 := |bs| - 1, bs + [f];
    var b' := bs[k].(len := bs[k].len + f.len);
    AbsorbedBlock(bs, f);
    assert bs1[k] in bs1 && bs1[k + 1] in bs1;
    TilesOne(b');
    TilesBounds(bs1, bs1[0].start, Brk(bs1));
    WfSplice(bs1, k, k + 2, [b']);
    assert Splice(bs1, k, k + 2, [b']) == bs[k := b'];
    AbsorbNoTwoFree(bs, f, b');
    AbsorbBoundary(bs, f, b', rover);
    LiveOfFront(bs, f);
    ReplaceLastLive(bs, f, b');
  }

  lemma AbsorbNoTwoFree(bs: seq<Block>, f: Block, b': Block)
    requires bs != [] && NoTwoFree(bs + [f]) && b'.alloc
    ensures NoTwoFree(bs[|bs| - 1 := b'])
  {
    assert forall i :: 0 <= i < |bs| ==> (bs + [f])[i] == bs[i];
  }

  lemma AbsorbBoundary(bs: seq<Block>, f: Block, b': Block, rover: int)
    requires bs != [] && Wf(bs + [f]) && b'.start == bs[|bs| - 1].start
    ensures Boundary(bs[|bs| - 1 := b'], rover) <==> Boundary(bs + [f], rover) && rover != f.start
  {
    var bs1, bs' := bs + [f], bs[|bs| - 1 := b'];
    if Boundary(bs', rover) {
      var x := IndexOf(bs', rover);
      StartsOrdered(bs1, x, |bs|);
      assert bs1[x] in bs1 && bs1[x].start == rover;
    }
    if Boundary(bs1, rover) && rover != f.start {
      var x := IndexOf(bs1, rover);
      assert bs'[x] in bs' && bs'[x].start == rover;
    }
  }

  lemma LiveOfFront(bs: seq<Block>, f: Block)
    requires !f.alloc
    ensures Live(bs + [f]) == Live(bs)
  {
  }

  lemma ReplaceLastLive(bs: seq<Block>, f: Block, b': Block)
    requires bs != [] && Wf(bs + [f]) && bs[|bs| - 1] in Live(bs) && b'.alloc && b'.len >= MIN_WORDS && !f.alloc
    ensures Live(bs[|bs| - 1 := b']) == Live(bs) - {bs[|bs| - 1]} + {b'}
  {
    var bs1, k := bs + [f], |bs| - 1;
    ReplaceLive(bs1, k, b');
    LiveOfFront(bs, f);
    LiveOfFront(bs[k := b'], f);
    assert bs1[k := b'] == bs[k := b'] + [f];
  }

  /** The growth path of `mm_realloc` is taken by the last allocated block, and its signed sizes
      do not overflow. */
  ghost predicate CanGrow(h: Heap, p: int, n: nat) {
    && h.blocks != []
    && var b := h.blocks[LastAllocated(h.blocks)];
    && b in Live(h.blocks) && b.start == p
    && 1 <= n <= SAFE_REQUEST
    && b.Size() < PaddedSize(n) < b.Size() + 0x8000_0000
  }

  /** The rover is not at the free block that growing would swallow. */
  predicate RoverStays(h: Heap)
    requires h.blocks != []
  {
    h.rover != h.blocks[LastAllocated(h.blocks)].End()
  }

  lemma ShortfallFacts(h: Heap, p: int, n: nat)
    requires Inv(h) && CanGrow(h, p, n)
    ensures var bs, k := h.blocks, LastAllocated(h.blocks); var extra := Shortfall(bs, k, PaddedSize(n));
            && 4 * Brk(bs) <= MAX_HEAP
            && (extra == 0 || (extra / 4 >= 1024 && extra / 4 % 2 == 0)) && 4 * (extra / 4) == extra
            && (extra == 0 ==> k + 2 == |bs|)
            && 4 * (Brk(bs) + extra / 4 - bs[k].start) >= PaddedSize(n)
  {
    hide NoTwoFree, Boundary, Tiles, AdjustedSize, PaddedSize;
    PaddedIsAligned(n);
    var bs, k := h.blocks, LastAllocated(h.blocks);
    EndOfBlock(bs, k);
    EndOfBlock(bs, |bs| - 1);
    assert bs[k] in bs && bs[|bs| - 1] in bs;
    Missing(Brk(bs), bs[k].start, PaddedSize(n));
  }

  lemma PaddedIsAligned(n: nat)
    requires 1 <= n <= SAFE_REQUEST
    ensures PaddedSize(n) % 8 == 0
  {
    RoundingIsTight(n);
  }

  lemma Missing(brk: int, start: int, padded: int)
    requires brk % 2 == 0 && start % 2 == 0 && padded % 8 == 0
    ensures var missing := padded - 4 * (brk - start);
            var extra := if missing <= 0 then 0 else Max(missing, CHUNKSIZE);
            extra % 8 == 0 && 4 * (extra / 4) == extra && extra / 4 % 2 == 0
  {
    var q, m := (brk - start) / 2, padded / 8;
    assert padded - 4 * (brk - start) == 8 * (m - q);
  }

  /** Before the last allocated block grows, the heap consists of the blocks up to it and one
      free block, of its own or from `mem_sbrk`. */
  lemma ReadyToGrow(h: Heap, p: int, n: nat)
    requires Inv(h) && CanGrow(h, p, n) && GrowLast(h, n).1 != NULL
    ensures var bs, k := h.blocks, LastAllocated(h.blocks); var extra := Shortfall(bs, k, PaddedSize(n));
            var bs1 := bs[..k + 1] + [Tail(bs, k, extra / 4)];
            && (if extra == 0 then bs1 == bs else Extend(h, extra / 4) == Some(Heap(bs1, h.rover)))
            && Inv(Heap(bs1, h.rover)) && bs1[0] == bs[0] && Live(bs1) == Live(bs)
            && Brk(bs1) == Brk(bs) + extra / 4
            && bs[k] in Live(bs[..k + 1]) && Live(bs[..k + 1]) == Live(bs)
  {
    hide Wf, NoTwoFree, Boundary, Extend, AdjustedSize;
    var bs, k := h.blocks, LastAllocated(h.blocks);
    var extra := Shortfall(bs, k, PaddedSize(n));
    var bs1 := bs[..k + 1] + [Tail(bs, k, extra / 4)];
    ShortfallFacts(h, p, n);
    EndOfBlock(bs, k);
    if extra == 0 {
      assert bs1 == bs;
    } else {
      ExtendBehindLast(h, extra / 4);
      ExtendKeepsInv(h, extra / 4);
    }
    LiveOfFront(bs[..k + 1], Tail(bs, k, extra / 4));
  }

  /** Growing keeps the address and replaces the one live block by a block that takes in the free
      block behind it and what `mem_sbrk` adds, long enough for the padded request; it fails
      without a change exactly when the area is exhausted. The rover stays a block boundary if
      and only if it was not at the free block that is gone. */
  lemma GrowRefines(h: Heap, p: int, n: nat)
    requires Inv(h) && CanGrow(h, p, n)
    ensures var (h', q) := GrowLast(h, n); var k := LastAllocated(h.blocks); var b := h.blocks[k];
            var extra := Shortfall(h.blocks, k, PaddedSize(n));
            && Wf(h'.blocks) && NoTwoFree(h'.blocks) && h'.blocks[0] == h.blocks[0] && h'.rover == h.rover
            && (Boundary(h'.blocks, h'.rover) <==> q == NULL || RoverStays(h))
            && (q == NULL <==> 4 * Brk(h.blocks) + extra > MAX_HEAP)
            && (q == NULL ==> h' == h)
            && (q != NULL ==>
                  && q == p
                  && Brk(h'.blocks) == Brk(h.blocks) + extra / 4
                  && var b' := h'.blocks[|h'.blocks| - 1];
                  && b'.start == p && b'.alloc && b'.Size() >= PaddedSize(n)
                  && b'.Size() == b.Size() + (if k + 1 < |h.blocks| then h.blocks[k + 1].Size() else 0) + extra
                  && Live(h'.blocks) == Live(h.blocks) - {b} + {b'})
  {
    hide Wf, NoTwoFree, Boundary, Live, AdjustedSize, GrowLast;
    ShortfallFacts(h, p, n);
    GrowLastResult(h, p, n);
    if GrowLast(h, n).1 != NULL {
      var bs, k := h.blocks, LastAllocated(h.blocks);
      var f := Tail(bs, k, Shortfall(bs, k, PaddedSize(n)) / 4);
      ReadyToGrow(h, p, n);
      EndOfBlock(bs, k);
      AbsorbTail(bs[..k + 1], f, h.rover);
    }
  }

  lemma GrowLastResult(h: Heap, p: int, n: nat)
    requires Inv(h) && CanGrow(h, p, n)
    ensures var bs, k := h.blocks, LastAllocated(h.blocks); var extra := Shortfall(bs, k, PaddedSize(n));
            && p != NULL && k > 0 && bs[k].alloc
            && GrowLast(h, n)
               == if 4 * Brk(bs) + extra > MAX_HEAP then (h, NULL)
                  else (Heap(bs[..k + 1][k := bs[k].(len := bs[k].len + Tail(bs, k, extra / 4).len)], h.rover), p)
  {
    var bs, k := h.blocks, LastAllocated(h.blocks);
    LiveNotPrologue(bs, k);
    var b' := bs[k].(len := bs[k].len + Tail(bs, k, Shortfall(bs, k, PaddedSize(n)) / 4).len);
    assert bs[..k + 1][k := b'] == bs[..k] + [b'];
  }

  lemma LiveNotPrologue(bs: seq<Block>, k: nat)
    requires Wf(bs) && k < |bs| && bs[k] in Live(bs)
    ensures k > 0 && bs[k].start != NULL
  {
    TilesBounds(bs, bs[0].start, Brk(bs));
    assert bs[0] in bs && bs[k] in bs;
  }

  lemma ReplaceLive(bs: seq<Block>, k: nat, b': Block)
    requires Wf(bs) && k < |bs| && bs[k] in Live(bs)
    requires b'.alloc && b'.len >= MIN_WORDS
    ensures Live(bs[k := b']) == Live(bs) - {bs[k]} + {b'}
  {
    var bs' := bs[k := b'];
    forall c ensures c in Live(bs') <==> (c in Live(bs) && c != bs[k]) || c == b' {
      if c in Live(bs) && c != bs[k] {
        var x :| 0 <= x < |bs| && bs[x] == c;
        assert bs'[x] == c;
      }
      if c in Live(bs') && c != b' {
        var x :| 0 <= x < |bs| && bs'[x] == c;
        if c == bs[k] { StartsDistinct(bs, x, k); }
      }
      if c == b' { assert bs'[k] == c; }
    }
  }
}
