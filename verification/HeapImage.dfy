/** How a sequence of blocks is stored in the words of the heap. */
module HeapImage {
  import opened Bits
  import opened Words
  import opened HeapLayout
  import opened HeapSpec
  import opened HeapTheorems

  function Header(b: Block): int { b.Size() + if b.alloc then 1 else 0 }

  /** Header and footer agree on size and allocated bit; the header's tag bit is clear, the
      footer's may be anything. */
  ghost predicate Stamped(w: seq<Word32>, b: Block) {
    && 1 <= b.start <= |w| && 2 <= b.End() <= |w|
    && w[b.start - 1] == Header(b)
    && (w[b.End() - 2] == Header(b) || w[b.End() - 2] == Header(b) + 2)
  }

  /** The words below the break hold exactly these blocks and an allocated epilogue of size 0,
      whose tag bit may be set. */
  ghost predicate Image(w: seq<Word32>, bs: seq<Block>) {
    && |w| == HEAP_WORDS
    && Wf(bs)
    && (forall b :: b in bs ==> Stamped(w, b))
    && 1 <= Brk(bs) <= |w|
    && (w[Brk(bs) - 1] == 1 || w[Brk(bs) - 1] == 3)
  }

  /** Reading the tags of a stamped block gives the block back. */
  lemma ReadStamped(w: seq<Word32>, b: Block)
    requires Stamped(w, b) && b.len % 2 == 0
    ensures GetSize(w[b.start - 1]) == b.Size() && GetSize(w[b.End() - 2]) == b.Size()
    ensures GetAlloc(w[b.start - 1]) == GetAlloc(w[b.End() - 2]) == if b.alloc then 1 else 0
    ensures GetTag(w[b.start - 1]) == 0
  {
    var alloc := if b.alloc then 1 else 0;
    ReadHeader(b.len / 2, alloc, w[b.start - 1]);
    ReadHeader(b.len / 2, alloc, w[b.End() - 2]);
  }

  lemma ReadHeader(q: int, alloc: int, v: Word32)
    requires 0 <= alloc <= 1 && (v == 8 * q + alloc || v == 8 * q + alloc + 2)
    ensures GetSize(v) == 8 * q && GetAlloc(v) == alloc && GetTag(v) == v - 8 * q - alloc
  {
    var r := v - 8 * q;
    DivModUnique(v, 8, q, r);
    DivModUnique(v, 4, 2 * q, r);
    DivModUnique(v, 2, 4 * q + r / 2, alloc);
  }

  lemma ReadBlock(w: seq<Word32>, bs: seq<Block>, k: nat)
    requires Image(w, bs) && k < |bs|
    ensures 2 <= bs[k].start < bs[k].End() <= |w| && bs[k].len % 2 == 0
    ensures GetSize(w[bs[k].start - 1]) == bs[k].Size() && GetSize(w[bs[k].End() - 2]) == bs[k].Size()
    ensures GetAlloc(w[bs[k].start - 1]) == GetAlloc(w[bs[k].End() - 2]) == if bs[k].alloc then 1 else 0
    ensures GetTag(w[bs[k].start - 1]) == 0
    ensures bs[k].End() == if k + 1 < |bs| then bs[k + 1].start else Brk(bs)
  {
    assert bs[k] in bs;
    TilesBounds(bs, bs[0].start, Brk(bs));
    var m := TilesSplit(bs, k + 1, bs[0].start, Brk(bs));
    ReadStamped(w, bs[k]);
  }

  /** The allocator's own walk from p: hop by the recorded sizes until a size of 0. */
  function Walk(w: seq<Word32>, p: int): seq<Block>
    decreases |w| - p
  {
    if !(1 <= p <= |w|) || GetSize(w[p - 1]) == 0 then []
    else
      var b := Block(p, GetSize(w[p - 1]) / 4, GetAlloc(w[p - 1]) == 1);
      [b] + Walk(w, b.End())
  }

  lemma WalkStep(w: seq<Word32>, b: Block)
    requires 1 <= b.start <= |w| && b.len > 0
    requires GetSize(w[b.start - 1]) == b.Size() && GetAlloc(w[b.start - 1]) == if b.alloc then 1 else 0
    ensures Walk(w, b.start) == [b] + Walk(w, b.End())
  {
  }

  /** The walk visits exactly the blocks of the image and stops at the epilogue. */
  lemma {:induction false} WalkFrom(w: seq<Word32>, bs: seq<Block>, k: nat)
    requires Image(w, bs) && k <= |bs|
    ensures Walk(w, if k < |bs| then bs[k].start else Brk(bs)) == bs[k..]
    decreases |bs| - k
  {
    if k < |bs| {
      ReadBlock(w, bs, k);
      WalkFrom(w, bs, k + 1);
      WalkStep(w, bs[k]);
      assert bs[k..] == [bs[k]] + bs[k + 1..];
    }
  }

  /** Walking sizes from the prologue recovers the blocks, so memory determines them. */
  lemma WalkRecoversBlocks(w: seq<Word32>, bs: seq<Block>)
    requires Image(w, bs)
    ensures Walk(w, bs[0].start) == bs
  {
    WalkFrom(w, bs, 0);
  }

  /** w' differs from w only inside the words of blocks i to j, tags included. */
  ghost predicate OnlyWithin(w: seq<Word32>, w': seq<Word32>, bs: seq<Block>, i: nat, j: nat)
    requires i <= j < |bs|
  {
    && |w'| == |w|
    && forall x :: 0 <= x < |w| && !(bs[i].start - 1 <= x < bs[j].End() - 1) ==> w'[x] == w[x]
  }

  /** Rewriting only the words that blocks i..j occupy, so that the new blocks are stamped
      there, turns an image of bs into an image of the spliced blocks. */
  lemma ImageSplice(w: seq<Word32>, w': seq<Word32>, bs: seq<Block>, i: nat, j: nat, mid: seq<Block>)
    requires Image(w, bs) && 1 <= i < j <= |bs| && mid != [] && |w'| == |w|
    requires Tiles(mid, bs[i].start, bs[j - 1].End())
    requires forall b :: b in mid ==> WellSized(b, bs[0].start) && Stamped(w', b)
    requires OnlyWithin(w, w', bs, i, j - 1)
    ensures Image(w', Splice(bs, i, j, mid))
  {
    WfSplice(bs, i, j, mid);
    TilesOrder(bs, i, bs[0].start, Brk(bs));
    TilesOrder(bs, j - 1, bs[0].start, Brk(bs));
    forall b | b in Splice(bs, i, j, mid) ensures Stamped(w', b) {
      if b !in mid {
        assert b in bs;
        assert Stamped(w, b);
      }
    }
  }

  /** No payload word of these blocks changed. */
  ghost predicate SamePayloads(w: seq<Word32>, w': seq<Word32>, live: set<Block>) {
    |w'| == |w| && forall b, x :: b in live && b.Payload(x) && 0 <= x < |w| ==> w'[x] == w[x]
  }

  lemma SamePayloadsThen(w: seq<Word32>, w': seq<Word32>, w'': seq<Word32>, live: set<Block>, live': set<Block>)
    requires SamePayloads(w, w', live) && SamePayloads(w', w'', live') && live <= live'
    ensures SamePayloads(w, w'', live)
  {
  }

  lemma SamePayloadsFewer(w: seq<Word32>, w': seq<Word32>, live: set<Block>, live': set<Block>)
    requires SamePayloads(w, w', live) && live' <= live
    ensures SamePayloads(w, w', live')
  {
  }

  lemma OutsidePayloads(w: seq<Word32>, p: int, v: Word32, bs: seq<Block>)
    requires Wf(bs) && Brk(bs) - 1 <= p < |w| && 0 <= p
    ensures SamePayloads(w, w[p := v], Live(bs))
  {
    TilesBounds(bs, bs[0].start, Brk(bs));
  }

  /** The client may overwrite any payload word of a live block. */
  lemma ClientWrites(w: seq<Word32>, bs: seq<Block>, b: Block, x: int, v: Word32)
    requires Image(w, bs) && b in Live(bs) && b.Payload(x) && 0 <= x < |w|
    ensures Image(w[x := v], bs)
    ensures SamePayloads(w, w[x := v], Live(bs) - {b})
  {
    forall c | c in bs
      ensures Stamped(w[x := v], c)
      ensures c != b ==> !c.Payload(x)
    {
      assert Stamped(w, c);
      var i :| 0 <= i < |bs| && bs[i] == b;
      var j :| 0 <= j < |bs| && bs[j] == c;
      if i < j { StartsOrdered(bs, i, j); }
      if j < i { StartsOrdered(bs, j, i); }
    }
    TilesBounds(bs, bs[0].start, Brk(bs));
  }

  lemma OnlyWithinKeepsPayloads(w: seq<Word32>, w': seq<Word32>, bs: seq<Block>, i: nat, j: nat, kept: set<Block>)
    requires Image(w, bs) && i <= j < |bs| && OnlyWithin(w, w', bs, i, j)
    requires kept <= Live(bs) && forall x :: i <= x <= j ==> bs[x] !in kept
    ensures SamePayloads(w, w', kept)
  {
    forall b, x | b in kept && b.Payload(x) && 0 <= x < |w| ensures w'[x] == w[x] {
      var y :| 0 <= y < |bs| && bs[y] == b;
      assert y < i || y > j;
      if y < i { StartsOrdered(bs, y, i); }
      if y > j { StartsOrdered(bs, j, y); }
    }
  }

  /** The words can hold the two tags of b. */
  predicate Room(w: seq<Word32>, b: Block) {
    1 <= b.start <= b.End() - 2 && b.End() <= |w| <= HEAP_WORDS && Even(b.len)
  }

  /** Both tags of b rewritten, the footer keeping the tag bit of the word it replaces. */
  function Retag(w: seq<Word32>, b: Block): (w': seq<Word32>)
    requires Room(w, b)
    ensures |w'| == |w|
    ensures Stamped(w', b)
  {
    TagBits(w[b.End() - 2]);
    w[b.start - 1 := Header(b)][b.End() - 2 := Header(b) + GetTag(w[b.End() - 2])]
  }

  /** Retagging a merged run of free blocks. */
  lemma ImageCoalesce(w: seq<Word32>, h: Heap, k: nat)
    requires Image(w, h.blocks) && 1 <= k < |h.blocks| && !h.blocks[k].alloc
    ensures Room(w, Merged(h.blocks, k))
    ensures Image(Retag(w, Merged(h.blocks, k)), Coalesce(h, k).blocks)
    ensures SamePayloads(w, Retag(w, Merged(h.blocks, k)), Live(h.blocks))
  {
    hide Wf, Live, Retag, SamePayloads, OnlyWithin, MergeFirst, MergeLast, Merged;
    var bs := h.blocks;
    var i, j, b := MergeFirst(bs, k), MergeLast(bs, k), Merged(bs, k);
    MergedCovers(bs, k);
    BlockFits(w, bs, i);
    BlockFits(w, bs, j);
    RetagWithin(w, b, bs, i, j);
    TilesOne(b);
    ImageSplice(w, Retag(w, b), bs, i, j + 1, [b]);
    OnlyWithinKeepsPayloads(w, Retag(w, b), bs, i, j, Live(bs)) by {
      forall x | i <= x <= j ensures bs[x] !in Live(bs) { FreeNotLive(bs, x); }
    }
  }

  lemma FreeNotLive(bs: seq<Block>, x: nat)
    requires x < |bs| && !bs[x].alloc
    ensures bs[x] !in Live(bs)
  {
  }

  lemma BlockFits(w: seq<Word32>, bs: seq<Block>, i: nat)
    requires Image(w, bs) && i < |bs|
    ensures 2 <= bs[i].start < bs[i].End() <= |w| && bs[i].len >= 2 && bs[i].start % 2 == 0 && bs[i].len % 2 == 0
  {
    assert bs[i] in bs;
    TilesBounds(bs, bs[0].start, Brk(bs));
  }

  lemma RetagWithin(w: seq<Word32>, b: Block, bs: seq<Block>, i: nat, j: nat)
    requires Room(w, b) && i <= j < |bs| && bs[i].start <= b.start && b.End() <= bs[j].End()
    ensures OnlyWithin(w, Retag(w, b), bs, i, j)
  {
  }

  lemma TagBits(v: Word32)
    ensures GetTag(v) == 0 || GetTag(v) == 2
  {
  }

  /** Both tags of b written afresh. */
  function PutTags(w: seq<Word32>, b: Block): (w': seq<Word32>)
    requires Room(w, b)
    ensures |w'| == |w|
    ensures Stamped(w', b)
  {
    w[b.start - 1 := Header(b)][b.End() - 2 := Header(b)]
  }

  /** The tags that `place` writes: the allocated part keeps the tag bit its footer finds, the
      split-off part gets clean tags. */
  function PlaceTags(w: seq<Word32>, b: Block, need: int): (w': seq<Word32>)
    requires Room(w, b) && 2 <= need <= b.len && Even(need) && (Placed(b, need)[0].len == need ==> Even(b.len - need))
  {
    var cs := Placed(b, need);
    if |cs| == 1 then Retag(w, cs[0]) else PutTags(Retag(w, cs[0]), cs[1])
  }

  lemma ImagePlace(w: seq<Word32>, bs: seq<Block>, k: nat, need: int)
    requires Image(w, bs) && k < |bs| && Fits(bs[k], need) && need % 2 == 0 && need >= MIN_WORDS
    ensures Room(w, bs[k])
    ensures Image(PlaceTags(w, bs[k], need), Place(bs, k, need))
    ensures SamePayloads(w, PlaceTags(w, bs[k], need), Live(bs))
  {
    hide Tiles, Live, PlaceTags, SamePayloads, OnlyWithin, Placed;
    assert bs[k] in bs;
    BlockFits(w, bs, k);
    PlacedCovers(bs[k], need, bs[0].start);
    PlaceTagsStamp(w, bs[k], need);
    PlaceTagsWithin(w, bs, k, need);
    ImageSplice(w, PlaceTags(w, bs[k], need), bs, k, k + 1, Placed(bs[k], need));
    OnlyWithinKeepsPayloads(w, PlaceTags(w, bs[k], need), bs, k, k, Live(bs)) by { FreeNotLive(bs, k); }
  }

  lemma PlaceTagsStamp(w: seq<Word32>, b: Block, need: int)
    requires Room(w, b) && 4 <= need <= b.len && Even(need) && !b.alloc
    ensures Even(b.len - need)
    ensures forall c :: c in Placed(b, need) ==> Stamped(PlaceTags(w, b, need), c)
  {
  }

  lemma PlaceTagsWithin(w: seq<Word32>, bs: seq<Block>, k: nat, need: int)
    requires k < |bs| && Room(w, bs[k]) && 4 <= need <= bs[k].len && Even(need)
    ensures Even(bs[k].len - need)
    ensures OnlyWithin(w, PlaceTags(w, bs[k], need), bs, k, k)
  {
  }

  /** A footer cut out of an old payload carries whatever bit 1 the client left there. */
  lemma SplitFooterKeepsPayloadBit(w: seq<Word32>, bs: seq<Block>, k: nat, need: int)
    requires Image(w, bs) && k < |bs| && Fits(bs[k], need) && Even(need) && need >= MIN_WORDS
    requires bs[k].len - need >= MIN_WORDS
    ensures Room(w, bs[k]) && bs[k].Payload(bs[k].start + need - 2)
    ensures GetTag(PlaceTags(w, bs[k], need)[bs[k].start + need - 2]) == GetTag(w[bs[k].start + need - 2])
    ensures GetTag(PlaceTags(w, bs[k], need)[bs[k].start - 1]) == 0
  {
    BlockFits(w, bs, k);
    var b := bs[k];
    var v := w[b.start + need - 2];
    TagBits(v);
    ReadHeader(need / 2, 1, Header(Placed(b, need)[0]) + GetTag(v));
    ReadHeader(need / 2, 1, Header(Placed(b, need)[0]));
  }

  /** That bit decides nothing: with it set or cleared in any footer, the memory still holds the
      same blocks, and every operation is specified by the blocks alone. */
  lemma FooterTagDecidesNothing(w: seq<Word32>, bs: seq<Block>, k: nat)
    requires Image(w, bs) && k < |bs|
    ensures 0 <= bs[k].End() - 2 < |w|
    ensures Image(w[bs[k].End() - 2 := SetTag(w[bs[k].End() - 2])], bs)
    ensures Image(w[bs[k].End() - 2 := ClearTag(w[bs[k].End() - 2])], bs)
  {
    hide Wf, GetTag, Tiles;
    BlockFits(w, bs, k);
    var p := bs[k].End() - 2;
    ReadBlock(w, bs, k);
    FooterValues(w, bs, k);
    forall c | c in bs
      ensures c == bs[k] || (c.start - 1 != p && c.End() - 2 != p)
      ensures c.start - 1 != p && Brk(bs) - 1 != p
    {
      var j :| 0 <= j < |bs| && bs[j] == c;
      if j < k { StartsOrdered(bs, j, k); }
      if k < j { StartsOrdered(bs, k, j); }
      BlockFits(w, bs, j);
      BrkIsBehind(bs, k);
    }
    FooterRewritten(w, bs, k, SetTag(w[p]));
    FooterRewritten(w, bs, k, ClearTag(w[p]));
  }

  lemma BrkIsBehind(bs: seq<Block>, k: nat)
    requires Wf(bs) && k < |bs|
    ensures bs[k].End() <= Brk(bs)
  {
    TilesBounds(bs, bs[0].start, Brk(bs));
    assert bs[k] in bs;
  }

  lemma FooterValues(w: seq<Word32>, bs: seq<Block>, k: nat)
    requires Image(w, bs) && k < |bs| && 0 <= bs[k].End() - 2 < |w|
    ensures SetTag(w[bs[k].End() - 2]) == Header(bs[k]) + 2
    ensures ClearTag(w[bs[k].End() - 2]) == Header(bs[k])
  {
    BlockFits(w, bs, k);
    assert Stamped(w, bs[k]) by { assert bs[k] in bs; }
    ReadHeader(bs[k].len / 2, if bs[k].alloc then 1 else 0, w[bs[k].End() - 2]);
  }

  lemma FooterRewritten(w: seq<Word32>, bs: seq<Block>, k: nat, v: Word32)
    requires Image(w, bs) && k < |bs| && (v == Header(bs[k]) || v == Header(bs[k]) + 2)
    requires 0 <= bs[k].End() - 2 < |w| && bs[k].End() - 2 != Brk(bs) - 1
    requires forall c :: c in bs ==> c.start - 1 != bs[k].End() - 2
    requires forall c :: c in bs && c != bs[k] ==> c.End() - 2 != bs[k].End() - 2
    ensures Image(w[bs[k].End() - 2 := v], bs)
  {
  }

  /** What `place` writes for a size of 0 at p: the footer of the block before p, the header at p
      twice, and, because the second header leads there, the word f for the remainder's footer. */
  function ZeroTags(w: seq<Word32>, p: int, f: int, size: Word32): (w': seq<Word32>)
    requires 2 <= p <= |w| && 0 <= f < |w|
    ensures |w'| == |w|
  {
    w[p - 2 := WithTag(1, w[p - 2])][p - 1 := size][f := size]
  }

  /** The footer of the block behind block k, or of block k if it is the last one */
  function FooterBehind(bs: seq<Block>, k: nat): int
    requires k < |bs|
  {
    if k + 1 < |bs| then bs[k + 1].End() - 2 else bs[k].End() - 2
  }

  /** Every header stays, so that block k is still free, but the block before it has lost its
      footer: the words no longer hold the blocks. */
  lemma ZeroBreaksFooter(w: seq<Word32>, bs: seq<Block>, k: nat)
    requires Image(w, bs) && 1 <= k < |bs| && !bs[k].alloc
    ensures 2 <= bs[k].start <= |w| && 0 <= FooterBehind(bs, k) < |w| && 0 <= bs[k].Size() < 0x1_0000_0000
    ensures var w' := ZeroTags(w, bs[k].start, FooterBehind(bs, k), bs[k].Size());
            && (forall c :: c in bs ==> 0 <= c.start - 1 < |w| && w'[c.start - 1] == w[c.start - 1])
            && GetSize(w'[bs[k - 1].End() - 2]) == 0
            && !Stamped(w', bs[k - 1])
  {
    hide Wf, Tiles, Image, ZeroTags;
    var p, f := bs[k].start, FooterBehind(bs, k);
    BlockFits(w, bs, k);
    BlockFits(w, bs, k - 1);
    ReadBlock(w, bs, k - 1);
    BlockStamped(w, bs, k);
    SizeInRange(bs[k], |w|);
    FooterBehindFits(w, bs, k);
    forall c | c in bs
      ensures 0 <= c.start - 1 < |w|
      ensures ZeroTags(w, p, f, bs[k].Size())[c.start - 1] == w[c.start - 1]
    {
      var x :| 0 <= x < |bs| && bs[x] == c;
      HeaderElsewhere(w, bs, k, x);
      ZeroTagsAt(w, p, f, bs[k].Size(), c.start - 1);
    }
    ZeroTagsAt(w, p, f, bs[k].Size(), p - 2);
    TagBits(w[p - 2]);
    ReadHeader(0, 1, WithTag(1, w[p - 2]));
    ReadHeader(bs[k - 1].len / 2, if bs[k - 1].alloc then 1 else 0, Header(bs[k - 1]));
  }

  lemma BlockStamped(w: seq<Word32>, bs: seq<Block>, k: nat)
    requires Image(w, bs) && k < |bs|
    ensures Stamped(w, bs[k]) && |w| == HEAP_WORDS
  {
    assert bs[k] in bs;
  }

  lemma ZeroTagsAt(w: seq<Word32>, p: int, f: int, size: Word32, x: int)
    requires 2 <= p <= |w| && 0 <= f < |w| && 0 <= x < |w| && f != x
    requires x == p - 1 ==> w[x] == size
    ensures ZeroTags(w, p, f, size)[x] == if x == p - 2 then WithTag(1, w[x]) else w[x]
  {
  }

  lemma FooterBehindFits(w: seq<Word32>, bs: seq<Block>, k: nat)
    requires Image(w, bs) && k < |bs|
    ensures bs[k].start < FooterBehind(bs, k) + 1 < |w|
  {
    BlockFits(w, bs, k);
    if k + 1 < |bs| {
      BlockFits(w, bs, k + 1);
      StartsOrdered(bs, k, k + 1);
    }
  }

  /** No header lies where a size of 0 writes a footer. */
  lemma HeaderElsewhere(w: seq<Word32>, bs: seq<Block>, k: nat, x: nat)
    requires Image(w, bs) && 1 <= k < |bs| && x < |bs|
    ensures 1 <= bs[x].start <= |w| && (bs[x].start == bs[k].start ==> x == k)
    ensures bs[x].start - 1 != bs[k].start - 2 && bs[x].start - 1 != FooterBehind(bs, k)
  {
    hide Tiles;
    var j := if k + 1 < |bs| then k + 1 else k;
    BlockFits(w, bs, x);
    BlockFits(w, bs, k);
    BlockFits(w, bs, j);
    if x < k { StartsOrdered(bs, x, k); }
    if x > k { StartsOrdered(bs, k, x); }
    if x > j { StartsOrdered(bs, j, x); }
  }

  lemma SizeInRange(b: Block, n: int)
    requires 2 <= b.start < b.End() <= n == HEAP_WORDS
    ensures 0 <= b.Size() < 0x1_0000_0000
  {
  }

  lemma ImageFreed(w: seq<Word32>, bs: seq<Block>, k: nat)
    requires Image(w, bs) && 1 <= k < |bs| && bs[k] in Live(bs)
    ensures Room(w, Freed(bs, k)[k])
    ensures Image(Retag(w, Freed(bs, k)[k]), Freed(bs, k))
    ensures SamePayloads(w, Retag(w, Freed(bs, k)[k]), Live(bs) - {bs[k]})
  {
    var b := Freed(bs, k)[k];
    assert bs[k] in bs;
    TilesBounds(bs, bs[0].start, Brk(bs));
    var w' := Retag(w, b);
    TilesOne(b);
    ImageSplice(w, w', bs, k, k + 1, [b]);
    assert Freed(bs, k) == Splice(bs, k, k + 1, [b]);
    OnlyWithinKeepsPayloads(w, w', bs, k, k, Live(bs) - {bs[k]});
  }

  lemma ImageEpilogueTag(w: seq<Word32>, bs: seq<Block>, v: Word32)
    requires Image(w, bs) && (v == 1 || v == 3)
    ensures Image(w[Brk(bs) - 1 := v], bs)
    ensures SamePayloads(w, w[Brk(bs) - 1 := v], Live(bs))
  {
    TilesBounds(bs, bs[0].start, Brk(bs));
    forall b | b in bs ensures Stamped(w[Brk(bs) - 1 := v], b) {
      assert Stamped(w, b);
    }
  }

  /** The tags of a block past the old break, and a new epilogue behind it. */
  function AppendTags(w: seq<Word32>, b: Block): (w': seq<Word32>)
    requires Room(w, b) && !b.alloc
    ensures |w'| == |w|
  {
    PutTags(w, b)[b.End() - 1 := 1]
  }

  lemma ImageAppend(w: seq<Word32>, bs: seq<Block>, b: Block)
    requires Image(w, bs) && b.start == Brk(bs) && b.len >= MIN_WORDS && Even(b.len) && !b.alloc
    requires 4 * b.End() <= MAX_HEAP
    ensures Room(w, b)
    ensures Image(AppendTags(w, b), bs + [b])
    ensures SamePayloads(w, AppendTags(w, b), Live(bs))
  {
    WfAppend(bs, b);
    TilesBounds(bs, bs[0].start, Brk(bs));
    forall c | c in bs ensures Stamped(AppendTags(w, b), c) {
      assert Stamped(w, c);
    }
  }

  /** Giving the last block's words to the allocated block before it. */
  lemma ImageAbsorb(w: seq<Word32>, bs: seq<Block>, b: Block)
    requires bs != [] && bs[|bs| - 1] in Live(bs) && !b.alloc
    requires Image(w, bs + [b])
    ensures var k := |bs| - 1; var b' := bs[k].(len := bs[k].len + b.len);
            && Room(w, b') && Brk(bs[k := b']) == Brk(bs + [b])
            && Image(PutTags(w, b'), bs[k := b'])
            && SamePayloads(w, PutTags(w, b'), Live(bs))
  {
    var k := |bs| - 1;
    var bs1 := bs + [b];
    var b' := bs[k].(len := bs[k].len + b.len);
    AbsorbedBlock(bs, b);
    TilesBounds(bs1, bs1[0].start, Brk(bs1));
    assert bs1[k] in bs1 && bs1[k + 1] in bs1;
    var w' := PutTags(w, b');
    assert OnlyWithin(w, w', bs1, k, k + 1);
    TilesOne(b');
    ImageSplice(w, w', bs1, k, k + 2, [b']);
    assert Splice(bs1, k, k + 2, [b']) == bs[k := b'];
    LiveOfFront(bs, b);
    AbsorbKeepsPayloads(w, bs1, k, b');
  }

  /** Tags around block k and the free block behind it touch no live payload. */
  lemma AbsorbKeepsPayloads(w: seq<Word32>, bs: seq<Block>, k: nat, b': Block)
    requires Wf(bs) && k + 1 < |bs| && !bs[k + 1].alloc && bs[k + 1].start == bs[k].End()
    requires Room(w, b') && b'.start == bs[k].start && b'.End() == bs[k + 1].End()
    ensures SamePayloads(w, PutTags(w, b'), Live(bs))
  {
    assert bs[k + 1] in bs;
    forall c, x | c in Live(bs) && c.Payload(x) && 0 <= x < |w|
      ensures PutTags(w, b')[x] == w[x]
    {
      var y :| 0 <= y < |bs| && bs[y] == c;
      if y < k { StartsOrdered(bs, y, k); }
      if y > k + 1 { StartsOrdered(bs, k + 1, y); }
    }
  }

  // ---------------------------------------------------------------- a rover that has lost its block

  /** The rover lies inside the last block, which is live, and the word before the rover is still
      the header of a free block of len words that ended there. */
  ghost predicate Stale(w: seq<Word32>, bs: seq<Block>, rover: int, len: int) {
    && Image(w, bs) && bs[|bs| - 1] in Live(bs)
    && bs[|bs| - 1].start < rover && rover + len == bs[|bs| - 1].End()
    && len >= MIN_WORDS && Even(len)
    && 0 <= rover - 1 < |w| && w[rover - 1] == 4 * len
  }

  /** It stays so whatever the client writes, unless it writes to that very word. */
  lemma ClientKeepsStale(w: seq<Word32>, bs: seq<Block>, rover: int, len: int, b: Block, x: int, v: Word32)
    requires Stale(w, bs, rover, len) && b in Live(bs) && b.Payload(x) && 0 <= x < |w| && x != rover - 1
    ensures Stale(w[x := v], bs, rover, len)
  {
    ClientWrites(w, bs, b, x, v);
  }

  /** The header lies in the payload, and so does the address behind it; the header changes when
      tags are placed there. */
  lemma StaleInside(w: seq<Word32>, bs: seq<Block>, rover: int, len: int, need: int)
    requires Stale(w, bs, rover, len) && 4 <= need <= len && Even(need)
    ensures bs != [] && bs[|bs| - 1].Payload(rover - 1) && bs[|bs| - 1].Payload(rover)
    ensures bs[|bs| - 1] in Live(bs) && bs[|bs| - 1].start < rover
    ensures Room(w, Block(rover, len, false)) && Even(len - need)
    ensures PlaceTags(w, Block(rover, len, false), need)[rover - 1] != w[rover - 1]
  {
    hide Tiles, Live;
    BlockFits(w, bs, |bs| - 1);
    PlaceTagsStamp(w, Block(rover, len, false), need);
    var c := Placed(Block(rover, len, false), need)[0];
    assert Stamped(PlaceTags(w, Block(rover, len, false), need), c);
    OddHeader(c.len, len, PlaceTags(w, Block(rover, len, false), need)[rover - 1]);
  }

  lemma OddHeader(m: int, n: int, v: int)
    requires v == 4 * m + 1
    ensures v != 4 * n
  {
  }

  /** After the last block has taken in the free block f behind it, the header of f is still in
      memory: only the outer tags were rewritten. */
  lemma AbsorbLeavesHeader(w: seq<Word32>, bs: seq<Block>, f: Block)
    requires bs != [] && bs[|bs| - 1] in Live(bs) && !f.alloc && Image(w, bs + [f])
    ensures var k := |bs| - 1; var b' := bs[k].(len := bs[k].len + f.len);
            Room(w, b') && Stale(PutTags(w, b'), bs[k := b'], f.start, f.len)
  {
    var k, bs1 := |bs| - 1, bs + [f];
    var b' := bs[k].(len := bs[k].len + f.len);
    ImageAbsorb(w, bs, f);
    AbsorbedBlock(bs, f);
    assert bs1[k + 1] in bs1 && Stamped(w, f);
    BlockFits(w, bs1, k);
    BlockFits(w, bs1, k + 1);
    assert bs[k := b'][k] == b';
  }
}
