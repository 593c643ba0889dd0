/** What each call answers, computed from the heap before it with numbers alone: which block
    `mm_malloc` takes, how it cuts it, by how much the heap grows, and where the rover stops. */
module HeapAnswers {
  import opened Options
  import opened HeapLayout
  import opened HeapSpec
  import opened HeapTheorems

  /** r is the size, in bytes, that a request of n bytes is rounded to. */
  predicate RoundsTo(n: nat, r: int) {
    if n <= 0xFFFF_FFF0 then r % 8 == 0 && r >= 16 && n + 8 <= r <= n + 15
    else if n <= 0xFFFF_FFF8 then r == 0
    else r == 8
  }

  lemma Rounded(n: nat, r: int)
    requires 1 <= n < 0x1_0000_0000 && RoundsTo(n, r)
    ensures AdjustedSize(n) == r && 4 * Need(n) == r && Need(n) % 2 == 0
    ensures 4 * Max(Need(n), CHUNKSIZE / 4) == if r > 4096 then r else 4096
    ensures Max(Need(n), CHUNKSIZE / 4) % 2 == 0
  {
    hide AdjustedSize;
    if n <= SAFE_REQUEST { RoundingIsTight(n); } else { WrappedSize(n); }
  }

  /** Placing leaves the break alone. */
  lemma PlaceKeepsBrk(bs: seq<Block>, k: nat, need: int)
    requires k < |bs|
    ensures Place(bs, k, need) != [] && Brk(Place(bs, k, need)) == Brk(bs)
  {
    var cs, bs' := Placed(bs[k], need), Place(bs, k, need);
    assert cs[|cs| - 1].End() == bs[k].End();
    assert bs'[|bs'| - 1] == if k + 1 < |bs| then bs[|bs| - 1] else cs[|cs| - 1];
  }

  /** A rest of four words or more becomes a free block of its own, and the block has exactly the
      words needed; otherwise it keeps its length, which is two words too many at most. */
  lemma PlaceExact(bs: seq<Block>, k: nat, need: int)
    requires Wf(bs) && k < |bs| && Fits(bs[k], need) && need % 2 == 0
    ensures var p, all := bs[k].start, bs[k].len;
            Place(bs, k, need)
            == bs[..k] + (if need == 0 then [bs[k]]
                          else if all - need >= 4
                          then [Block(p, need, true), Block(p + need, all - need, false)]
                          else [Block(p, all, true)])
               + bs[k + 1..]
    ensures bs[k].len < need + 4 ==> bs[k].len == need || bs[k].len == need + 2
  {
    assert bs[k] in bs;
  }

  lemma FitFacts(h: Heap, need: int)
    requires Inv(h)
    ensures FindFit(h, need).0.Some? <==> AnyFit(h.blocks, need)
    ensures FindFit(h, need).0.Some? ==>
              FindFit(h, need).0.value < |h.blocks| && Fits(h.blocks[FindFit(h, need).0.value], need)
  {
    hide Wf, NoTwoFree, Boundary, FindFit;
    FindFitPolicy(h, need);
  }

  /** Extending succeeds exactly if there is room, and adds a free block or enlarges the last one. */
  lemma ExtendExact(h: Heap, words: int) returns (grown: seq<Block>)
    requires Inv(h) && words % 2 == 0 && words >= MIN_WORDS
    ensures var bs, last := h.blocks, h.blocks[|h.blocks| - 1];
            grown == if last.alloc then bs + [Block(Brk(bs), words, false)]
                     else bs[..|bs| - 1] + [Block(last.start, last.len + words, false)]
    ensures if 4 * (Brk(h.blocks) + words) <= 20_971_520
            then Extend(h, words) == Some(Heap(grown, h.rover)) && Wf(grown) && Fits(grown[|grown| - 1], words)
            else Extend(h, words) == None
  {
    assert h.blocks != [];
    hide Wf, NoTwoFree, Boundary, Live, Coalesce;
    var last := h.blocks[|h.blocks| - 1];
    grown := if last.alloc then h.blocks + [Block(Brk(h.blocks), words, false)]
             else h.blocks[..|h.blocks| - 1] + [Block(last.start, last.len + words, false)];
    ExtendKeepsInv(h, words);
    if 4 * (Brk(h.blocks) + words) <= MAX_HEAP {
      if last.alloc { ExtendBehindLive(h, words); } else { ExtendBehindFree(h, words); }
    }
  }

  /** The heap in which the block is cut, and the index of the block */
  lemma Taken(h: Heap, need: int) returns (grown: seq<Block>, k: nat)
    requires Inv(h) && need % 2 == 0
    ensures var bs, last := h.blocks, h.blocks[|h.blocks| - 1];
            var words := if need > 1024 then need else 1024;
            grown == if AnyFit(bs, need) then bs
                     else if last.alloc then bs + [Block(Brk(bs), words, false)]
                     else bs[..|bs| - 1] + [Block(last.start, last.len + words, false)]
    ensures k < |grown|
    ensures AllocateWords(h, need).1 != NULL ==>
              && Wf(grown) && Fits(grown[k], need)
              && AllocateWords(h, need).1 == grown[k].start
              && AllocateWords(h, need).0.blocks == Place(grown, k, need)
    ensures !AnyFit(h.blocks, need) ==>
              if 4 * (Brk(h.blocks) + if need > 1024 then need else 1024) <= 20_971_520
              then k + 1 == |grown| && AllocateWords(h, need) == (Heap(Place(grown, k, need), h.rover), grown[k].start)
              else AllocateWords(h, need) == (h, 0)
  {
    assert h.blocks != [];
    hide Wf, NoTwoFree, Boundary, Extend, FindFit, Place;
    FitFacts(h, need);
    if AnyFit(h.blocks, need) {
      grown, k := h.blocks, FindFit(h, need).0.value;
    } else {
      grown := ExtendExact(h, Max(need, CHUNKSIZE / 4));
      k := |grown| - 1;
    }
  }

  lemma ChoosesFit(h: Heap, need: int, r: int)
    requires Inv(h) && 4 * need == r && AnyFit(h.blocks, need)
    ensures var (h', p) := AllocateWords(h, need);
            var fits := set b | b in h.blocks && !b.alloc && r <= 4 * b.len;
            var ahead := set b | b in fits && h.rover <= b.start;
            && h'.blocks != [] && Brk(h'.blocks) == Brk(h.blocks) && fits != {}
            && (if ahead != {}
                then (exists b :: b in ahead && b.start == p) && (forall b :: b in ahead ==> p <= b.start)
                else exists b :: b in fits && b.start == p &&
                       forall c :: c in fits ==> b.len < c.len || (b.len == c.len && p <= c.start))
            && h'.rover == if ahead != {} then p else h.rover
  {
    hide Wf, NoTwoFree, Boundary, FindFit, Place;
    FindFitPolicy(h, need);
    var fits := set b | b in h.blocks && !b.alloc && r <= 4 * b.len;
    var ahead := set b | b in fits && h.rover <= b.start;
    assert forall b :: b in fits <==> b in h.blocks && Fits(b, need);
    assert forall b :: b in ahead <==> b in h.blocks && b.start >= h.rover && Fits(b, need);
    var k := FindFit(h, need).0.value;
    assert h.blocks[k] in fits;
    if ahead == {} {
      assert forall b :: b in h.blocks && b.start >= h.rover ==> b !in ahead;
    }
    PlaceKeepsBrk(h.blocks, k, need);
  }

  lemma ChoosesEnd(h: Heap, need: int)
    requires Inv(h) && need % 2 == 0 && !AnyFit(h.blocks, need)
    ensures var (h', p) := AllocateWords(h, need); var last := h.blocks[|h.blocks| - 1];
            var words := if need > 1024 then need else 1024;
            if 4 * (Brk(h.blocks) + words) <= 20_971_520 then
              && p == (if last.alloc then Brk(h.blocks) else last.start)
              && h'.rover == h.rover && h'.blocks != [] && Brk(h'.blocks) == Brk(h.blocks) + words
            else h' == h && p == 0
  {
    hide Inv, AllocateWords, AnyFit, Place;
    var grown, k := Taken(h, need);
    PlaceKeepsBrk(grown, k, need);
  }

  /** The block that answers a request is free and large enough; a free block at or after the
      rover goes first, the nearest one, and takes the rover along; then the leftmost of the
      smallest, and the rover stays; then the free block that ends the heap once it has grown by
      the rounded size, but by at least 4096 bytes. Nothing changes if there is no room for that,
      or if nothing was asked for. */
  lemma MallocChooses(h: Heap, n: nat, r: int)
    requires Inv(h) && n < 0x1_0000_0000 && (n >= 1 ==> RoundsTo(n, r))
    ensures var (h', p) := Malloc(h, n); var last := h.blocks[|h.blocks| - 1];
            var fits := set b | b in h.blocks && !b.alloc && r <= 4 * b.len;
            var ahead := set b | b in fits && h.rover <= b.start;
            var more := if r > 4096 then r else 4096;
            h'.blocks != [] &&
            if n == 0 then h' == h && p == 0
            else if ahead != {} then
              && (exists b :: b in ahead && b.start == p) && (forall b :: b in ahead ==> p <= b.start)
              && h'.rover == p && Brk(h'.blocks) == Brk(h.blocks)
            else if fits != {} then
              && (exists b :: b in fits && b.start == p &&
                    forall c :: c in fits ==> b.len < c.len || (b.len == c.len && p <= c.start))
              && h'.rover == h.rover && Brk(h'.blocks) == Brk(h.blocks)
            else if 4 * Brk(h.blocks) + more <= 20_971_520 then
              && p == (if last.alloc then Brk(h.blocks) else last.start)
              && h'.rover == h.rover && 4 * Brk(h'.blocks) == 4 * Brk(h.blocks) + more
            else h' == h && p == 0
  {
    assert h.blocks != [];
    hide Wf, NoTwoFree, Boundary, AllocateWords, AdjustedSize;
    if n > 0 {
      Rounded(n, r);
      if exists b :: b in h.blocks && Fits(b, Need(n)) {
        ChoosesFit(h, Need(n), r);
      } else {
        assert (set b | b in h.blocks && !b.alloc && r <= 4 * b.len) == {};
        ChoosesEnd(h, Need(n));
      }
    }
  }

  /** The blocks afterwards, in full: the free block taken, of the heap before or of the heap that
      has grown, is cut down to the rounded size if at least 16 bytes are left, which become a free
      block behind it; if not, all of it is handed out, which is 8 bytes too many at most. */
  lemma MallocCuts(h: Heap, n: nat, r: int) returns (grown: seq<Block>, k: nat)
    requires Inv(h) && 1 <= n < 0x1_0000_0000 && RoundsTo(n, r) && Malloc(h, n).1 != NULL
    ensures var bs, last := h.blocks, h.blocks[|h.blocks| - 1];
            var words := (if r > 4096 then r else 4096) / 4;
            grown == if exists b :: b in bs && !b.alloc && r <= 4 * b.len then bs
                     else if last.alloc then bs + [Block(Brk(bs), words, false)]
                     else bs[..|bs| - 1] + [Block(last.start, last.len + words, false)]
    ensures k < |grown| && grown[k].start == Malloc(h, n).1 && !grown[k].alloc && r <= 4 * grown[k].len
    ensures var p, all := grown[k].start, grown[k].len;
            Malloc(h, n).0.blocks
            == grown[..k] + (if r == 0 then [grown[k]]
                             else if 4 * all - r >= 16
                             then [Block(p, r / 4, true), Block(p + r / 4, all - r / 4, false)]
                             else [Block(p, all, true)])
               + grown[k + 1..]
    ensures 4 * grown[k].len < r + 16 ==> 4 * grown[k].len == r || 4 * grown[k].len == r + 8
  {
    hide Wf, NoTwoFree, Boundary, AllocateWords, AdjustedSize, Place;
    Rounded(n, r);
    grown, k := Taken(h, Need(n));
    PlaceExact(grown, k, Need(n));
  }

  /** The address does not move, and what the block takes in is all there is up to the break; with
      128 bytes of padding on top of the rounded size, what is missing comes from `mem_sbrk`, at
      least 4096 bytes of it. The blocks before it stay. */
  lemma GrowExact(h: Heap, p: int, n: nat, r: int)
    requires Inv(h) && CanGrow(h, p, n) && RoundsTo(n, r)
    ensures var (h', q) := GrowLast(h, n); var bs := h.blocks;
            var avail := 4 * (Brk(bs) - p);
            var missing := r + 128 - avail;
            var extra := if missing <= 0 then 0 else if missing > 4096 then missing else 4096;
            if 4 * Brk(bs) + extra > 20_971_520 then q == 0 && h' == h
            else
              && q == p && h'.rover == h.rover && h'.blocks != []
              && var k := |h'.blocks| - 1; var b := h'.blocks[k];
              && k < |bs| && bs[k].start == p && h'.blocks[..k] == bs[..k]
              && b.start == p && b.alloc && 4 * b.len == avail + extra
              && 4 * Brk(h'.blocks) == 4 * Brk(bs) + extra
  {
    hide Tiles, NoTwoFree, Boundary, AdjustedSize;
    Rounded(n, r);
    ShortfallFacts(h, p, n);
  }

  lemma CoalesceRover(h: Heap, k: nat)
    requires Wf(h.blocks) && Boundary(h.blocks, h.rover)
    requires 1 <= k < |h.blocks| && !h.blocks[k].alloc
    ensures var h' := Coalesce(h, k);
            if Boundary(h'.blocks, h.rover) then h'.rover == h.rover
            else exists b :: b in h'.blocks && !b.alloc && h'.rover == b.start < h.rover < b.End()
  {
    CoalesceKeepsWf(h, k);
    var h', b, i := Coalesce(h, k), Merged(h.blocks, k), MergeFirst(h.blocks, k);
    assert h'.blocks[i] == b && b in h'.blocks;
    if Boundary(h'.blocks, h.rover) {
      RoverNotInside(h'.blocks, i, h.rover);
    }
  }

  /** Freeing leaves the rover alone unless it would end up inside the merged block; then it moves
      to the start of that block. Freeing NULL changes nothing. */
  lemma FreeRover(h: Heap, p: int)
    requires Inv(h) && (p == 0 || LiveAt(h.blocks, p))
    ensures var h' := Free(h, p);
            if p == 0 then h' == h
            else if Boundary(h'.blocks, h.rover) then h'.rover == h.rover
            else exists b :: b in h'.blocks && !b.alloc && h'.rover == b.start < h.rover < b.End()
  {
    if p != 0 {
      hide NoTwoFree, Live;
      LiveIndex(h.blocks, p);
      var k := IndexOf(h.blocks, p);
      FreedKeepsWf(h.blocks, k);
      FreedKeepsRover(h.blocks, k, h.rover);
      CoalesceRover(Heap(Freed(h.blocks, k), h.rover), k);
    }
  }
}
