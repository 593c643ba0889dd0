/** A client of the allocator that also writes to its payloads: whole runs over memory words. */
module HeapClient {
  import opened Bits
  import opened HeapLayout
  import opened HeapTheorems
  import opened HeapRuns
  import opened HeapImage
  import Memlib
  import A = Allocator

  /** A call, or a write of v to word i of the payload at p */
  datatype Action = Call(op: Op) | Write(p: int, i: nat, v: Word32)

  /** What the client last wrote: word i of the payload at p, for the words it has written */
  type Contents = map<(int, nat), Word32>

  /** A released payload is forgotten, and so is what lies beyond the new size after a growth. */
  function Remember(data: Contents, op: Op, result: int): Contents {
    match op
    case Alloc(_) => data
    case Release(p) => map key | key in data && key.0 != p :: data[key]
    case Grow(p, n) =>
      if result == NULL then data
      else map key | key in data && (key.0 == p ==> 4 * key.1 + 4 <= n) :: data[key]
  }

  /** The client writes only inside the bytes it has asked for. */
  ghost predicate Permitted(h: Heap, led: Ledger, a: Action) {
    match a
    case Call(op) => Allowed(h, op)
    case Write(p, i, _) => p in led && 4 * i + 4 <= led[p]
  }

  function Act(h: Heap, led: Ledger, a: Action): (r: (Heap, Ledger))
    requires Inv(h) && Permitted(h, led, a)
    ensures Inv(r.0)
  {
    match a
    case Call(op) =>
      StepKeepsInv(h, op);
      (Step(h, op).0, Record(led, op, Step(h, op).1))
    case Write(_, _, _) => (h, led)
  }

  function Note(h: Heap, led: Ledger, data: Contents, a: Action): Contents
    requires Inv(h) && Permitted(h, led, a)
  {
    match a
    case Call(op) => Remember(data, op, Step(h, op).1)
    case Write(p, i, v) => data[(p, i) := v]
  }

  ghost predicate LegalActions(h: Heap, led: Ledger, actions: seq<Action>)
    requires Inv(h)
    decreases |actions|
  {
    if actions == [] then true
    else
      && Permitted(h, led, actions[0])
      && LegalActions(Act(h, led, actions[0]).0, Act(h, led, actions[0]).1, actions[1..])
  }

  /** The heap, the ledger and the contents at the end of a run */
  ghost function Outcome(h: Heap, led: Ledger, data: Contents, actions: seq<Action>): (Heap, Ledger, Contents)
    requires Inv(h) && LegalActions(h, led, actions)
    decreases |actions|
  {
    if actions == [] then (h, led, data)
    else
      var (h', led') := Act(h, led, actions[0]);
      Outcome(h', led', Note(h, led, data, actions[0]), actions[1..])
  }

  function Calls(actions: seq<Action>): seq<Op> {
    if actions == [] then []
    else if actions[0].Call? then [actions[0].op] + Calls(actions[1..])
    else Calls(actions[1..])
  }

  /** Writing does not disturb the calls: heap and ledger are those of the calls alone. */
  lemma {:induction false} OutcomeIsRun(h: Heap, led: Ledger, data: Contents, actions: seq<Action>)
    requires Inv(h) && LegalActions(h, led, actions)
    ensures Legal(h, Calls(actions))
    ensures var (h', led', _) := Outcome(h, led, data, actions); Run(h, led, Calls(actions)) == (h', led')
    decreases |actions|
  {
    hide Inv, Step, Record, Remember, Allowed;
    if actions != [] {
      var (h', led') := Act(h, led, actions[0]);
      OutcomeIsRun(h', led', Note(h, led, data, actions[0]), actions[1..]);
      var ops := Calls(actions);
      if actions[0].Call? {
        assert ops[0] == actions[0].op && ops[1..] == Calls(actions[1..]);
      }
    }
  }

  // ---------------------------------------------------------------- contents in memory

  ghost predicate Within(data: Contents, led: Ledger) {
    forall key :: key in data ==> key.0 in led && 4 * key.1 + 4 <= led[key.0]
  }

  /** Every word the client remembers writing stands in memory. */
  ghost predicate Keeps(w: seq<Word32>, data: Contents) {
    forall key :: key in data ==> 0 <= key.0 + key.1 < |w| && w[key.0 + key.1] == data[key]
  }

  /** A word of the bytes asked for is a payload word. */
  lemma WordOfPayload(live: set<Block>, led: Ledger, p: int, i: nat) returns (b: Block)
    requires Agrees(live, led, false) && p in led && 4 * i + 4 <= led[p]
    ensures b in live && b.start == p && b.Payload(p + i)
  {
    b :| b in live && b.start == p;
  }

  /** Words of payloads that a call keeps are as the client left them. */
  lemma KeepsThrough(w: seq<Word32>, w': seq<Word32>, live: set<Block>, gone: set<Block>, led: Ledger,
                     data: Contents, data': Contents)
    requires Agrees(live, led, false) && Within(data, led) && Keeps(w, data)
    requires SamePayloads(w, w', live - gone)
    requires forall key :: key in data' ==> key in data && data'[key] == data[key]
    requires forall key, b :: key in data' && b in gone ==> b.start != key.0
    ensures Keeps(w', data')
  {
    forall key | key in data'
      ensures 0 <= key.0 + key.1 < |w'| && w'[key.0 + key.1] == data'[key]
    {
      var b := WordOfPayload(live, led, key.0, key.1);
      assert b in live - gone;
    }
  }

  /** What the client remembers lies within what it holds. */
  lemma RememberWithin(h: Heap, led: Ledger, data: Contents, op: Op)
    requires Inv(h) && Allowed(h, op) && Agrees(Live(h.blocks), led, false) && Within(data, led)
    ensures var r := Step(h, op).1; Within(Remember(data, op, r), Record(led, op, r))
  {
    if op.Alloc? && op.n > 0 {
      NewIsNotHeld(h, led, op.n);
    }
  }

  /** malloc does not return an address that the client already holds. */
  lemma NewIsNotHeld(h: Heap, led: Ledger, n: nat)
    requires Inv(h) && 1 <= n <= SAFE_REQUEST && Agrees(Live(h.blocks), led, false)
    ensures var r := Step(h, Alloc(n)).1; r == NULL || r !in led
  {
    MallocRefines(h, n);
    var (h', r) := Step(h, Alloc(n));
    if r != NULL {
      StepKeepsInv(h, Alloc(n));
      LiveStartsDistinct(h'.blocks);
      assert BlockAt(h'.blocks, r) in Live(h'.blocks);
      assert forall c :: c in Live(h.blocks) ==> c in Live(h'.blocks) && c.start != r;
    }
  }

  // ---------------------------------------------------------------- the runs themselves

  /** Heap, ledger and contents agree with each other and with memory. */
  ghost predicate Consistent(a: A.Allocator, led: Ledger, data: Contents)
    reads a, a.memory, a.memory.words
  {
    && a.Valid() && a.heapListp != NULL
    && Agrees(Live(a.blocks), led, false) && Within(data, led) && Keeps(a.memory.words[..], data)
  }

  method Allocate(a: A.Allocator, n: nat, ghost led: Ledger, ghost data: Contents) returns (r: int)
    requires Consistent(a, led, data) && Inv(a.State()) && Allowed(a.State(), Alloc(n))
    modifies a, a.memory`brk, a.memory.words
    ensures (a.State(), r) == old(Step(a.State(), Alloc(n)))
    ensures Consistent(a, Record(led, Alloc(n), r), Remember(data, Alloc(n), r))
  {
    ghost var h, w := a.State(), a.memory.words[..];
    r := a.MmMalloc(n, 0);
    StepAgrees(h, led, Alloc(n), false);
    RememberWithin(h, led, data, Alloc(n));
    KeepsThrough(w, a.memory.words[..], Live(h.blocks), {}, led, data, data);
  }

  method Free(a: A.Allocator, p: int, ghost led: Ledger, ghost data: Contents)
    requires Consistent(a, led, data) && Inv(a.State()) && Allowed(a.State(), Release(p))
    modifies a, a.memory.words
    ensures (a.State(), NULL) == old(Step(a.State(), Release(p)))
    ensures Consistent(a, Record(led, Release(p), NULL), Remember(data, Release(p), NULL))
  {
    ghost var h, w := a.State(), a.memory.words[..];
    a.MmFree(p);
    StepAgrees(h, led, Release(p), false);
    RememberWithin(h, led, data, Release(p));
    ghost var gone := if p == NULL then {} else {BlockAt(h.blocks, p)};
    KeepsThrough(w, a.memory.words[..], Live(h.blocks), gone, led, data, Remember(data, Release(p), NULL));
  }

  method Grown(a: A.Allocator, p: int, n: nat, ghost led: Ledger, ghost data: Contents) returns (r: int)
    requires Consistent(a, led, data) && Inv(a.State()) && Allowed(a.State(), Grow(p, n))
    modifies a, a.memory`brk, a.memory.words
    ensures (a.State(), r) == old(Step(a.State(), Grow(p, n)))
    ensures Consistent(a, Record(led, Grow(p, n), r), Remember(data, Grow(p, n), r))
  {
    ghost var h, w := a.State(), a.memory.words[..];
    r := a.ReallocLast(p, n);
    StepAgrees(h, led, Grow(p, n), false);
    RememberWithin(h, led, data, Grow(p, n));
    KeepsThrough(w, a.memory.words[..], Live(h.blocks), {}, led, data, Remember(data, Grow(p, n), r));
  }

  method Store(a: A.Allocator, p: int, i: nat, v: Word32, ghost led: Ledger, ghost data: Contents)
    requires Consistent(a, led, data) && p in led && 4 * i + 4 <= led[p]
    modifies a.memory.words
    ensures Consistent(a, led, data[(p, i) := v])
  {
    ghost var w := a.memory.words[..];
    ghost var b := WordOfPayload(Live(a.blocks), led, p, i);
    PayloadInMemory(w, a.blocks, b, p + i);
    a.memory.words[p + i] := v;
    ClientWrites(w, a.blocks, b, p + i, v);
    assert a.memory.words[..] == w[p + i := v];
    StoreKeeps(w, a.blocks, b, i, v, led, data);
  }

  lemma PayloadInMemory(w: seq<Word32>, bs: seq<Block>, b: Block, x: int)
    requires Image(w, bs) && b in Live(bs) && b.Payload(x)
    ensures 0 <= x < |w|
  {
    TilesBounds(bs, bs[0].start, Brk(bs));
  }

  lemma StoreKeeps(w: seq<Word32>, bs: seq<Block>, b: Block, i: nat, v: Word32, led: Ledger, data: Contents)
    requires Image(w, bs) && b in Live(bs) && b.Payload(b.start + i) && 0 <= b.start + i < |w|
    requires Agrees(Live(bs), led, false) && Within(data, led) && Keeps(w, data)
    ensures Keeps(w[b.start + i := v], data[(b.start, i) := v])
  {
    var w' := w[b.start + i := v];
    ClientWrites(w, bs, b, b.start + i, v);
    LiveStartsDistinct(bs);
    forall key | key in data && key != (b.start, i)
      ensures 0 <= key.0 + key.1 < |w'| && w'[key.0 + key.1] == data[key]
    {
      if key.0 != b.start {
        var c := WordOfPayload(Live(bs), led, key.0, key.1);
        assert c in Live(bs) - {b};
      }
    }
  }

  /** One action, carried out in memory */
  method Do(a: A.Allocator, action: Action, ghost led: Ledger, ghost data: Contents)
    requires Consistent(a, led, data) && Inv(a.State()) && Permitted(a.State(), led, action)
    modifies a, a.memory`brk, a.memory.words
    ensures (a.State(), Act(old(a.State()), led, action).1) == Act(old(a.State()), led, action)
    ensures Consistent(a, Act(old(a.State()), led, action).1, Note(old(a.State()), led, data, action))
  {
    hide Consistent, Inv, Step, Record, Remember, Allowed;
    match action
    case Call(Alloc(n)) => var r := Allocate(a, n, led, data);
    case Call(Release(p)) => Free(a, p, led, data);
    case Call(Grow(p, n)) => var r := Grown(a, p, n, led, data);
    case Write(p, i, v) => Store(a, p, i, v, led, data);
  }

  /** Any run of calls and client writes: the heap ends as specified, holding just the payloads
      of the ledger, and every word that the client has written to a payload it still holds has
      the value it last wrote there. */
  method Perform(a: A.Allocator, actions: seq<Action>, ghost led: Ledger, ghost data: Contents)
    requires Consistent(a, led, data) && Inv(a.State()) && LegalActions(a.State(), led, actions)
    modifies a, a.memory`brk, a.memory.words
    ensures var (h, led', data') := Outcome(old(a.State()), led, data, actions);
            a.State() == h && Consistent(a, led', data')
  {
    hide Consistent, Inv, Act, Note, Permitted;
    ghost var h0, l, d := a.State(), led, data;
    assert actions[0..] == actions;
    for n := 0 to |actions|
      invariant Inv(a.State()) && Consistent(a, l, d) && LegalActions(a.State(), l, actions[n..])
      invariant Outcome(a.State(), l, d, actions[n..]) == Outcome(h0, led, data, actions)
    {
      ghost var h := a.State();
      assert actions[n..][0] == actions[n] && actions[n..][1..] == actions[n + 1..];
      Do(a, actions[n], l, d);
      l, d := Act(h, l, actions[n]).1, Note(h, l, d, actions[n]);
    }
  }

  /** The whole program: `mm_init`, then any run */
  method Program(memory: Memlib.Memory, actions: seq<Action>) returns (a: A.Allocator)
    requires memory.Valid() && memory.brk % 8 == 0 && memory.brk + 16 <= MAX_HEAP
    requires LegalActions(Initial(memory.brk / 4 + 2), map[], actions)
    modifies memory`brk, memory.words
    ensures fresh(a) && a.memory == memory
    ensures var (h, led, data) := Outcome(Initial(old(memory.brk) / 4 + 2), map[], map[], actions);
            a.State() == h && Consistent(a, led, data)
  {
    hide Act, Note, Permitted, Outcome, LegalActions;
    a := new A.Allocator(memory);
    var r := a.MmInit();
    assert Consistent(a, map[], map[]);
    Perform(a, actions, map[], map[]);
  }
}
