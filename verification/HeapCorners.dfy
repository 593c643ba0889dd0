/** Runs into the corners that the conditions of `HeapTheorems` mark: a rover left inside a block
    that grew, and requests that wrap around. */
module HeapCorners {
  import opened Options
  import opened HeapLayout
  import opened HeapSpec
  import opened HeapTheorems
  import opened HeapRuns
  import opened HeapImage
  import Memlib
  import A = Allocator

  /** Room for a first chunk behind the prologue at lo */
  predicate HasRoom(lo: int) {
    lo >= 2 && lo % 2 == 0 && 4 * (lo + 2 + 1024) <= MAX_HEAP
  }

  function Prologue(lo: int): Block {
    Block(lo, PROLOGUE_WORDS, true)
  }

  /** After malloc(8) */
  function OneBlock(lo: int): Heap {
    Heap([Prologue(lo), Block(lo + 2, 4, true), Block(lo + 6, 1020, false)], lo)
  }

  /** After malloc(8), malloc(8) */
  function TwoBlocks(lo: int): Heap {
    Heap([Prologue(lo), Block(lo + 2, 4, true), Block(lo + 6, 4, true), Block(lo + 10, 1016, false)], lo + 6)
  }

  /** After malloc(8), malloc(8), and freeing the second */
  function RoverBehind(lo: int): Heap {
    Heap([Prologue(lo), Block(lo + 2, 4, true), Block(lo + 6, 1020, false)], lo + 6)
  }

  /** The first chunk */
  lemma FirstChunk(lo: int)
    requires HasRoom(lo)
    ensures var h := Heap([Prologue(lo), Block(lo + 2, 1024, false)], lo);
            Extend(Initial(lo), 1024) == Some(h)
  {
    ExtendBehindLive(Initial(lo), 1024);
    assert Initial(lo).blocks + [Block(lo + 2, 1024, false)] == [Prologue(lo), Block(lo + 2, 1024, false)];
  }

  lemma NothingFitsInitially(lo: int, need: int)
    requires HasRoom(lo)
    ensures FindFit(Initial(lo), need) == (None, lo)
  {
    var bs := Initial(lo).blocks;
    assert FirstFit(bs, 0, need) == FirstFit(bs, 1, need) == None;
    assert BestFit(bs, 0, need) == None;
  }

  lemma FirstAlloc(lo: int)
    requires HasRoom(lo)
    ensures Step(Initial(lo), Alloc(8)) == (OneBlock(lo), lo + 2)
  {
    hide Extend, FindFit;
    assert Need(8) == 4;
    NothingFitsInitially(lo, 4);
    FirstChunk(lo);
    var h1 := Heap([Prologue(lo), Block(lo + 2, 1024, false)], lo);
    assert Place(h1.blocks, 1, 4) == OneBlock(lo).blocks;
  }

  lemma SecondAlloc(lo: int)
    requires HasRoom(lo)
    ensures OneBlock(lo).blocks[0].start == lo
    ensures Boundary(OneBlock(lo).blocks, lo) && Malloc(OneBlock(lo), 8) == (TwoBlocks(lo), lo + 6)
  {
    var bs := OneBlock(lo).blocks;
    assert Need(8) == 4;
    assert bs[0] in bs;
    assert FirstFit(bs, 0, 4) == FirstFit(bs, 1, 4) == FirstFit(bs, 2, 4) == Some(2);
    assert Place(bs, 2, 4) == TwoBlocks(lo).blocks;
  }

  lemma FreeSecond(lo: int)
    requires HasRoom(lo)
    ensures Boundary(TwoBlocks(lo).blocks, lo + 6) && Free(TwoBlocks(lo), lo + 6) == RoverBehind(lo)
  {
    var bs := TwoBlocks(lo).blocks;
    assert bs[2] in bs;
    assert bs[1..][1..] == bs[2..] && bs[1..][0] == bs[1];
    assert IndexOf(bs, lo + 6) == 2;
    var f := Freed(bs, 2);
    assert Merged(f, 2) == Block(lo + 6, 1020, false);
    assert Splice(f, 2, 4, [Merged(f, 2)]) == RoverBehind(lo).blocks;
  }

  lemma RunCons(h: Heap, led: Ledger, op: Op, rest: seq<Op>)
    requires Inv(h) && Allowed(h, op) && Inv(Step(h, op).0) && Legal(Step(h, op).0, rest)
    ensures Legal(h, [op] + rest)
    ensures var (h', r) := Step(h, op); Run(h, led, [op] + rest) == Run(h', Record(led, op, r), rest)
  {
    hide Allowed, Step, Record, Inv;
    var ops := [op] + rest;
    assert ops[0] == op && ops[1..] == rest;
  }

  /** The calls after which the rover is at the free block behind a live one */
  function LosingCalls(lo: int): seq<Op> {
    [Alloc(8)] + ([Alloc(8)] + ([Release(lo + 6)] + []))
  }

  lemma SecondIsLive(lo: int)
    requires HasRoom(lo)
    ensures LiveAt(TwoBlocks(lo).blocks, lo + 6)
  {
    var b := Block(lo + 6, 4, true);
    assert TwoBlocks(lo).blocks[2] == b;
    assert b in Live(TwoBlocks(lo).blocks);
  }

  lemma LosingRun(lo: int)
    requires HasRoom(lo)
    ensures Legal(Initial(lo), LosingCalls(lo)) && Inv(RoverBehind(lo))
    ensures Run(Initial(lo), map[], LosingCalls(lo)).0 == RoverBehind(lo)
  {
    hide Inv, Malloc, Free, LiveAt, Boundary, Record, OneBlock, TwoBlocks, RoverBehind;
    var h0, h1, h2, h3 := Initial(lo), OneBlock(lo), TwoBlocks(lo), RoverBehind(lo);
    FirstAlloc(lo);
    StepKeepsInv(h0, Alloc(8));
    SecondAlloc(lo);
    StepKeepsInv(h1, Alloc(8));
    SecondIsLive(lo);
    FreeSecond(lo);
    StepKeepsInv(h2, Release(lo + 6));
    var led1 := Record(map[], Alloc(8), lo + 2);
    var led2 := Record(led1, Alloc(8), lo + 6);
    RunCons(h2, led2, Release(lo + 6), []);
    RunCons(h1, led1, Alloc(8), [Release(lo + 6)] + []);
    RunCons(h0, map[], Alloc(8), [Alloc(8)] + ([Release(lo + 6)] + []));
  }

  /** The rover condition of `GrowRefines` can fail: after three calls the rover is at the free
      block behind the first payload, and growing that payload leaves the rover inside. */
  lemma RoverIsLost(lo: int, n: nat)
    requires HasRoom(lo) && 1 <= n <= 3900
    ensures Legal(Initial(lo), LosingCalls(lo))
    ensures var h := Run(Initial(lo), map[], LosingCalls(lo)).0;
            && CanGrow(h, lo + 2, n) && !RoverStays(h)
            && var (h', q) := GrowLast(h, n);
            && q == lo + 2 && h'.rover == lo + 6 && !Boundary(h'.blocks, h'.rover)
  {
    LosingRun(lo);
    FirstCanGrow(lo, n);
    GrowRefines(RoverBehind(lo), lo + 2, n);
  }

  lemma FirstCanGrow(lo: int, n: nat)
    requires HasRoom(lo) && 1 <= n <= 3900
    ensures CanGrow(RoverBehind(lo), lo + 2, n) && !RoverStays(RoverBehind(lo))
    ensures 4 * Brk(RoverBehind(lo).blocks) + Shortfall(RoverBehind(lo).blocks, 1, PaddedSize(n)) <= MAX_HEAP
  {
    var bs := RoverBehind(lo).blocks;
    assert bs[1] in Live(bs);
    RoundingIsTight(n);
    assert LastAllocated(bs) == 1;
  }

  /** A request whose size wraps around is answered: already the first one is, from the first
      chunk, with a block too small for it. */
  lemma OversizedIsAnswered(lo: int, n: nat)
    requires HasRoom(lo) && SAFE_REQUEST < n < WORD_RANGE
    ensures var (h', p) := Malloc(Initial(lo), n); p == lo + 2 && !Fulfilled(h'.blocks, p, n)
  {
    hide FindFit, Extend, Place, AdjustedSize, Inv;
    WrappedSize(n);
    NothingFitsInitially(lo, Need(n));
    FirstChunk(lo);
    MallocFulfilledIff(Initial(lo), n);
  }

  /** malloc 8, malloc 8, free the second */
  method ThreeCalls(memory: Memlib.Memory) returns (a: A.Allocator, p: int)
    requires memory.Valid() && memory.brk % 8 == 0 && HasRoom(memory.brk / 4 + 2)
    modifies memory`brk, memory.words
    ensures fresh(a) && a.memory == memory && a.Valid()
    ensures var lo := old(memory.brk) / 4 + 2; a.State() == RoverBehind(lo) && p == lo + 2
  {
    hide Inv, Malloc, Free, LiveAt, Boundary, Live, OneBlock, TwoBlocks, RoverBehind, SamePayloads;
    hide Image, Wf, NoTwoFree;
    ghost var lo := memory.brk / 4 + 2;
    a := new A.Allocator(memory);
    var ok := a.MmInit();
    FirstAlloc(lo);
    InitialFacts(lo);
    Begun(a);
    p := a.MmMalloc(8, 0);
    SecondAlloc(lo);
    Begun(a);
    var q := a.MmMalloc(8, 0);
    SecondIsLive(lo);
    FreeSecond(lo);
    a.MmFree(q);
  }

  lemma Begun(a: A.Allocator)
    requires a.Valid()
    ensures a.heapListp != NULL && a.Start() == a.State()
  {
  }

  lemma InitialFacts(lo: int)
    requires HasRoom(lo)
    ensures Step(Initial(lo), Alloc(8)) == Malloc(Initial(lo), 8)
  {
  }

  /** Growing the first payload swallows the block that the rover is at. */
  method GrowFirst(a: A.Allocator, p: int, n: nat) returns (q: int)
    requires a.Valid() && HasRoom(p - 2) && a.State() == RoverBehind(p - 2) && 1 <= n <= 3900
    modifies a`currentBlock, a`blocks, a.memory`brk, a.memory.words
    ensures q == p && a.blocks != [] && a.heapListp != NULL && a.Lost(Brk(a.blocks) - a.currentBlock)
    ensures var b := a.blocks[|a.blocks| - 1];
            b in Live(a.blocks) && b.start == p && n + 8 <= b.Size() && a.currentBlock == p + 4
            && Brk(a.blocks) - a.currentBlock >= 1020
  {
    hide Image, SamePayloads;
    ghost var h := a.State();
    Begun(a);
    FirstCanGrow(p - 2, n);
    a.InvHolds();
    GrownFirst(p - 2, n);
    q := a.ReallocLast(p, n);
  }

  lemma GrownFirst(lo: int, n: nat)
    requires HasRoom(lo) && 1 <= n <= 3900 && Inv(RoverBehind(lo))
    ensures CanGrow(RoverBehind(lo), lo + 2, n) && !RoverStays(RoverBehind(lo))
    ensures var (h', q) := GrowLast(RoverBehind(lo), n);
            && q == lo + 2 != NULL && h'.rover == lo + 6 && h'.blocks != []
            && var b := h'.blocks[|h'.blocks| - 1];
            b in Live(h'.blocks) && b.start == lo + 2 && n + 8 <= b.Size() && b.End() - h'.rover >= 1020
  {
    hide GrowLast, Inv, Wf, NoTwoFree, Boundary;
    FirstCanGrow(lo, n);
    GrowRefines(RoverBehind(lo), lo + 2, n);
    RoundingIsTight(n);
  }

  /** What a lost rover leads to, in memory: malloc 8, malloc 8, free the second, grow the first;
      the next request of up to 4000 bytes is answered inside the payload that grew, and a word of
      that payload is overwritten. */
  method AnswerInsidePayload(memory: Memlib.Memory, n: nat, m: nat) returns (a: A.Allocator, p: int, r: int)
    requires memory.Valid() && memory.brk % 8 == 0 && HasRoom(memory.brk / 4 + 2)
    requires 1 <= n <= 3900 && 1 <= m <= 4000
    modifies memory`brk, memory.words
    ensures fresh(a) && a.memory == memory && a.blocks != []
    ensures var b := a.blocks[|a.blocks| - 1];
            && b in Live(a.blocks) && b.start == p && n + 8 <= b.Size()
            && p < r && b.Payload(r) && b.Payload(r - 1)
  {
    hide Stale, Live, Image, HasRoom, RoverBehind, PlaceTags, Room;
    RoundingIsTight(m);
    a, p := ThreeCalls(memory);
    p := GrowFirst(a, p, n);
    r := a.MmMalloc(m, Brk(a.blocks) - a.currentBlock);
  }
}
