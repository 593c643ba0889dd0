/** The allocator of ASSN6/mm.c seen as operations on a sequence of blocks.

    Addresses are counted in 4-byte words from the start of the heap area; word 0 never
    holds a payload, so 0 is also the null pointer.  A block's `start` is its payload
    address: the header is the word before it and the next block's payload begins at
    `End()`, so the footer is the word `End() - 2`. */
module HeapLayout {

  const DSIZE := 8
  const CHUNKSIZE := 4096
  const PADDING := 128
  const MAX_HEAP := 20_971_520  // 20 MB
  const HEAP_WORDS := 5_242_880  // MAX_HEAP in words
  const NULL := 0

  const PROLOGUE_WORDS := 2
  const MIN_WORDS := 4

  datatype Block = Block(start: int, len: int, alloc: bool) {
    function End(): int { start + len }

    /** The size in bytes, as the header records it. */
    function Size(): int { 4 * len }

    /** The words a client may use. */
    predicate Payload(i: int) { start <= i < End() - 2 }
  }

  /** The blocks from the prologue up to the epilogue, and the next-fit rover. */
  datatype Heap = Heap(blocks: seq<Block>, rover: int)

  // ---------------------------------------------------------------- the invariant

  /** The blocks lie end to end from `lo` to `hi`. */
  ghost predicate Tiles(bs: seq<Block>, lo: int, hi: int) {
    if bs == [] then lo == hi
    else bs[0].start == lo && bs[0].len > 0 && Tiles(bs[1..], bs[0].End(), hi)
  }

  ghost predicate WellSized(b: Block, lo: int) {
    && b.start % 2 == 0 && b.len % 2 == 0
    && (b.len >= MIN_WORDS || b == Block(lo, PROLOGUE_WORDS, true))
  }

  /** No two neighbouring blocks are both free. */
  ghost predicate NoTwoFree(bs: seq<Block>) {
    forall i, j :: 0 <= i < j < |bs| && j == i + 1 ==> bs[i].alloc || bs[j].alloc
  }

  function Brk(bs: seq<Block>): int
    requires bs != []
  {
    bs[|bs| - 1].End()
  }

  predicate Boundary(bs: seq<Block>, p: int) {
    exists b :: b in bs && b.start == p
  }

  /** Tiling, sizes and limits: all that the boundary tags themselves rely on. */
  ghost predicate Wf(bs: seq<Block>) {
    && bs != []
    && bs[0] == Block(bs[0].start, PROLOGUE_WORDS, true) && bs[0].start >= 2
    && Tiles(bs, bs[0].start, Brk(bs))
    && (forall b :: b in bs ==> WellSized(b, bs[0].start))
    && 4 * Brk(bs) <= MAX_HEAP
  }

  /** What holds between complete calls. */
  ghost predicate Inv(h: Heap) {
    && Wf(h.blocks)
    && NoTwoFree(h.blocks)
    && Boundary(h.blocks, h.rover)
  }

  // ---------------------------------------------------------------- splicing runs of blocks

  function Splice(bs: seq<Block>, i: nat, j: nat, mid: seq<Block>): seq<Block>
    requires i <= j <= |bs|
  {
    bs[..i] + mid + bs[j..]
  }

  lemma TilesOne(b: Block)
    requires b.len > 0
    ensures Tiles([b], b.start, b.End())
  {
  }

  lemma {:induction false} TilesJoin(a: seq<Block>, b: seq<Block>, lo: int, mid: int, hi: int)
    requires Tiles(a, lo, mid) && Tiles(b, mid, hi)
    ensures Tiles(a + b, lo, hi)
  {
    if a == [] {
      assert a + b == b;
    } else {
      TilesJoin(a[1..], b, a[0].End(), mid, hi);
      assert (a + b)[1..] == a[1..] + b;
    }
  }

  lemma {:induction false} TilesSplit(bs: seq<Block>, k: nat, lo: int, hi: int) returns (mid: int)
    requires Tiles(bs, lo, hi) && k <= |bs|
    ensures Tiles(bs[..k], lo, mid) && Tiles(bs[k..], mid, hi)
    ensures k < |bs| ==> mid == bs[k].start
    ensures k > 0 ==> mid == bs[k - 1].End()
    ensures k == |bs| ==> mid == hi
  {
    if k == 0 {
      assert bs[..0] == [] && bs[0..] == bs;
      mid := lo;
    } else {
      mid := TilesSplit(bs[1..], k - 1, bs[0].End(), hi);
      assert bs[..k][1..] == bs[1..][..k - 1];
      assert bs[1..][k - 1..] == bs[k..];
      if k == 1 {
        assert bs[1..][..0] == [];
      }
    }
  }

  lemma {:induction false} TilesBounds(bs: seq<Block>, lo: int, hi: int)
    requires Tiles(bs, lo, hi)
    ensures lo <= hi
    ensures forall b :: b in bs ==> lo <= b.start < b.End() <= hi
  {
    if bs != [] {
      TilesBounds(bs[1..], bs[0].End(), hi);
      assert bs == [bs[0]] + bs[1..];
    }
  }

  /** Blocks before index k end at or before block k, the others start after it. */
  lemma TilesOrder(bs: seq<Block>, k: nat, lo: int, hi: int)
    requires Tiles(bs, lo, hi) && k < |bs|
    ensures lo <= bs[k].start < bs[k].End() <= hi
    ensures forall b :: b in bs[..k] ==> lo <= b.start < b.End() <= bs[k].start
    ensures forall b :: b in bs[k + 1..] ==> bs[k].End() <= b.start < b.End() <= hi
  {
    var m := TilesSplit(bs, k, lo, hi);
    TilesBounds(bs[..k], lo, m);
    var m' := TilesSplit(bs, k + 1, lo, hi);
    TilesBounds(bs[k + 1..], m', hi);
    TilesBounds(bs, lo, hi);
    assert bs[k] in bs;
  }

  lemma TilesSplice(bs: seq<Block>, i: nat, j: nat, mid: seq<Block>, lo: int, hi: int)
    requires Tiles(bs, lo, hi) && i < j <= |bs|
    requires Tiles(mid, bs[i].start, bs[j - 1].End())
    ensures Tiles(Splice(bs, i, j, mid), lo, hi)
  {
    var a := TilesSplit(bs, i, lo, hi);
    var b := TilesSplit(bs, j, lo, hi);
    TilesJoin(mid, bs[j..], a, b, hi);
    TilesJoin(bs[..i], mid + bs[j..], lo, a, hi);
    assert Splice(bs, i, j, mid) == bs[..i] + (mid + bs[j..]);
  }

  /** Replacing blocks i..j, none of them the prologue, by blocks that cover the same words. */
  lemma WfSplice(bs: seq<Block>, i: nat, j: nat, mid: seq<Block>)
    requires Wf(bs) && 1 <= i < j <= |bs| && mid != []
    requires Tiles(mid, bs[i].start, bs[j - 1].End())
    requires forall b :: b in mid ==> WellSized(b, bs[0].start)
    ensures Wf(Splice(bs, i, j, mid))
    ensures Splice(bs, i, j, mid)[0] == bs[0]
    ensures Brk(Splice(bs, i, j, mid)) == Brk(bs)
  {
    TilesSplice(bs, i, j, mid, bs[0].start, Brk(bs));
    var bs' := Splice(bs, i, j, mid);
    var m := TilesSplit(mid, |mid|, bs[i].start, bs[j - 1].End());
    if j == |bs| {
      assert bs'[|bs'| - 1] == mid[|mid| - 1];
    } else {
      assert bs'[|bs'| - 1] == bs[|bs| - 1];
    }
  }

  lemma WfAppend(bs: seq<Block>, b: Block)
    requires Wf(bs) && b.start == Brk(bs) && b.len >= MIN_WORDS && b.len % 2 == 0
    requires 4 * b.End() <= MAX_HEAP
    ensures Wf(bs + [b]) && Brk(bs + [b]) == b.End()
  {
    TilesOne(b);
    TilesJoin(bs, [b], bs[0].start, Brk(bs), b.End());
    assert bs[|bs| - 1] in bs;
    TilesBounds(bs, bs[0].start, Brk(bs));
  }

  lemma StartsOrdered(bs: seq<Block>, i: nat, j: nat)
    requires Wf(bs) && i < j < |bs|
    ensures bs[i].start < bs[i].End() <= bs[j].start < bs[j].End()
  {
    TilesOrder(bs, i, bs[0].start, Brk(bs));
    assert bs[j] in bs[i + 1..];
  }

  lemma StartsDistinct(bs: seq<Block>, i: nat, j: nat)
    requires Wf(bs) && i < |bs| && j < |bs| && bs[i].start == bs[j].start
    ensures i == j
  {
    if i < j {
      StartsOrdered(bs, i, j);
    } else if j < i {
      StartsOrdered(bs, j, i);
    }
  }
}
