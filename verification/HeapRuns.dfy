/** Whole runs of the allocator, against the ledger a client would keep by itself. */
module HeapRuns {
  import opened HeapLayout
  import opened HeapSpec
  import opened HeapTheorems

  /** A call: allocate n bytes, release the payload at p, or grow the payload at p, which
      must be in the last block, to n bytes. */
  datatype Op = Alloc(n: nat) | Release(p: int) | Grow(p: int, n: nat)

  /** What the client may call: it releases only NULL or payloads it holds. */
  ghost predicate Allowed(h: Heap, op: Op) {
    match op
    case Alloc(n) => n <= SAFE_REQUEST
    case Release(p) => p == NULL || LiveAt(h.blocks, p)
    case Grow(p, n) => CanGrow(h, p, n) && RoverStays(h)
  }

  /** The heap after a call, and the address the call returns (NULL for a release). */
  function Step(h: Heap, op: Op): (Heap, int)
    requires Inv(h) && Allowed(h, op)
  {
    match op
    case Alloc(n) => Malloc(h, n)
    case Release(p) => (Free(h, p), NULL)
    case Grow(p, n) => GrowLast(h, n)
  }

  /** The client's own book-keeping: the requested size of every payload it holds. */
  type Ledger = map<int, nat>

  function Record(led: Ledger, op: Op, result: int): Ledger {
    match op
    case Alloc(n) => if result == NULL then led else led[result := n]
    case Release(p) => led - {p}
    case Grow(p, n) => if result == NULL then led else led[p := n]
  }

  predicate NoGrow(ops: seq<Op>) {
    forall op :: op in ops ==> !op.Grow?
  }

  /** The ledger lists exactly the live payloads, each in a block with room for the request
      and its two tags; `tight` adds that at most 15 bytes more are wasted. */
  ghost predicate Agrees(live: set<Block>, led: Ledger, tight: bool) {
    && (forall p :: p in led <==> Holds(live, p))
    && (forall b :: b in live ==>
          && b.start in led
          && led[b.start] + 8 <= b.Size()
          && (tight ==> b.Size() <= led[b.start] + 23))
  }

  ghost predicate DistinctStarts(live: set<Block>) {
    forall b, c :: b in live && c in live && b.start == c.start ==> b == c
  }

  ghost predicate Legal(h: Heap, ops: seq<Op>)
    requires Inv(h)
    decreases |ops|
  {
    if ops == [] then true
    else
      && Allowed(h, ops[0])
      && (StepKeepsInv(h, ops[0]);
          Legal(Step(h, ops[0]).0, ops[1..]))
  }

  /** The heap and the ledger at the end of a run. */
  ghost function Run(h: Heap, led: Ledger, ops: seq<Op>): (Heap, Ledger)
    requires Inv(h) && Legal(h, ops)
    decreases |ops|
  {
    if ops == [] then (h, led)
    else
      StepKeepsInv(h, ops[0]);
      var (h', r) := Step(h, ops[0]);
      Run(h', Record(led, ops[0], r), ops[1..])
  }

  lemma StepKeepsInv(h: Heap, op: Op)
    requires Inv(h) && Allowed(h, op)
    ensures Inv(Step(h, op).0)
    ensures Step(h, op).0.blocks[0] == h.blocks[0]
  {
    match op
    case Alloc(n) => if n > 0 { MallocRefines(h, n); }
    case Release(p) => if p != NULL { FreeRefines(h, p); }
    case Grow(p, n) => GrowRefines(h, p, n);
  }

  lemma LiveStartsDistinct(bs: seq<Block>)
    requires Wf(bs)
    ensures DistinctStarts(Live(bs))
  {
    forall b, c | b in Live(bs) && c in Live(bs) && b.start == c.start ensures b == c {
      var x :| 0 <= x < |bs| && bs[x] == b;
      var y :| 0 <= y < |bs| && bs[y] == c;
      StartsDistinct(bs, x, y);
    }
  }

  lemma AgreesAfterAdding(live: set<Block>, led: Ledger, b: Block, n: nat, tight: bool)
    requires Agrees(live, led, tight) && b !in live && DistinctStarts(live + {b})
    requires n + 8 <= b.Size() && (tight ==> b.Size() <= n + 23)
    ensures Agrees(live + {b}, led[b.start := n], tight)
  {
  }

  lemma AgreesAfterRemoving(live: set<Block>, led: Ledger, b: Block, tight: bool)
    requires Agrees(live, led, tight) && b in live && DistinctStarts(live)
    ensures Agrees(live - {b}, led - {b.start}, tight)
  {
  }

  /** One call keeps heap and ledger in agreement; only growing gives up tightness. */
  lemma StepAgrees(h: Heap, led: Ledger, op: Op, tight: bool)
    requires Inv(h) && Allowed(h, op) && Agrees(Live(h.blocks), led, tight)
    ensures Agrees(Live(Step(h, op).0.blocks), Record(led, op, Step(h, op).1), tight && !op.Grow?)
  {
    var (h', r) := Step(h, op);
    StepKeepsInv(h, op);
    LiveStartsDistinct(h.blocks);
    LiveStartsDistinct(h'.blocks);
    match op
    case Alloc(n) =>
      if n > 0 {
        MallocRefines(h, n);
        if r != NULL { AgreesAfterAdding(Live(h.blocks), led, BlockAt(h'.blocks, r), n, tight); }
      }
    case Release(p) =>
      if p == NULL {
        NullNotLive(h.blocks);
        assert led - {p} == led;
      } else {
        FreeRefines(h, p);
        LiveIndex(h.blocks, p);
        AgreesAfterRemoving(Live(h.blocks), led, BlockAt(h.blocks, p), tight);
      }
    case Grow(p, n) => GrowAgrees(h, led, p, n, tight);
  }

  lemma GrowAgrees(h: Heap, led: Ledger, p: int, n: nat, tight: bool)
    requires Inv(h) && CanGrow(h, p, n) && Agrees(Live(h.blocks), led, tight)
    ensures var (h', r) := GrowLast(h, n); Agrees(Live(h'.blocks), Record(led, Grow(p, n), r), false)
  {
    GrowRefines(h, p, n);
    RoundingIsTight(n);
    var (h', r) := GrowLast(h, n);
    if r != NULL {
      LiveStartsDistinct(h.blocks);
      LiveStartsDistinct(h'.blocks);
      var b, b' := h.blocks[LastAllocated(h.blocks)], h'.blocks[|h'.blocks| - 1];
      var live := Live(h.blocks) - {b};
      AgreesAfterRemoving(Live(h.blocks), led, b, tight);
      assert b' !in live;
      AgreesAfterAdding(live, led - {p}, b', n, false);
      assert (led - {p})[p := n] == led[p := n];
    }
  }

  lemma NullNotLive(bs: seq<Block>)
    requires Wf(bs)
    ensures !LiveAt(bs, NULL)
  {
    TilesBounds(bs, bs[0].start, Brk(bs));
  }

  /** Every legal run, from any state in which heap and ledger agree: the heap invariant
      holds at the end and the heap holds exactly the payloads the client's ledger lists.
      Without growing, every block stays within 23 bytes of its request. */
  lemma {:induction false} RunRefinesLedger(h: Heap, led: Ledger, ops: seq<Op>, tight: bool)
    requires Inv(h) && Legal(h, ops) && Agrees(Live(h.blocks), led, tight)
    ensures var (h', led') := Run(h, led, ops);
            && Inv(h') && h'.blocks[0] == h.blocks[0]
            && Agrees(Live(h'.blocks), led', tight && NoGrow(ops))
    decreases |ops|
  {
    if ops != [] {
      StepKeepsInv(h, ops[0]);
      StepAgrees(h, led, ops[0], tight);
      var (h1, r) := Step(h, ops[0]);
      NoGrowTail(ops);
      RunRefinesLedger(h1, Record(led, ops[0], r), ops[1..], tight && !ops[0].Grow?);
    }
  }

  lemma NoGrowTail(ops: seq<Op>)
    requires ops != []
    ensures NoGrow(ops) <==> !ops[0].Grow? && NoGrow(ops[1..])
  {
  }

  /** The heap `mm_init` leaves behind, with the prologue's payload at word `lo`. */
  function Initial(lo: int): (h: Heap)
    requires lo >= 2 && lo % 2 == 0 && 4 * (lo + 2) <= MAX_HEAP
    ensures Inv(h) && Live(h.blocks) == {} && Brk(h.blocks) == lo + 2
  {
    var bs := [Block(lo, PROLOGUE_WORDS, true)];
    assert bs[1..] == [] && Tiles(bs, lo, lo + 2);
    assert bs[0] in bs;
    Heap(bs, lo)
  }

  /** The client's view of a whole program run: starting from `mm_init`, after any legal
      sequence of calls the sizes tile the heap, no two neighbours are free, the rover is a
      block boundary, the payloads are exactly those of the ledger, and if the ledger is
      empty the heap has healed into at most one free block. */
  lemma ProgramRun(lo: int, ops: seq<Op>)
    requires lo >= 2 && lo % 2 == 0 && 4 * (lo + 2) <= MAX_HEAP
    requires Legal(Initial(lo), ops)
    ensures var (h, led) := Run(Initial(lo), map[], ops);
            && Inv(h) && h.blocks[0].start == lo
            && Agrees(Live(h.blocks), led, NoGrow(ops))
            && (led == map[] ==> |h.blocks| <= 2)
  {
    RunRefinesLedger(Initial(lo), map[], ops, true);
    var (h, led) := Run(Initial(lo), map[], ops);
    if led == map[] {
      assert Live(h.blocks) == {};
      EverythingFreedIsOneBlock(h);
    }
  }
}
