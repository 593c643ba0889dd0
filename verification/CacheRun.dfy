/** The simulator of ASSN4/csim.c over whole traces. */
module CacheRun {
  import opened Bits
  import opened CacheSet
  import opened RecencyStack
  import opened LruSet

  /** 2^s sets of E lines, blocks of 2^b bytes */
  datatype Geometry = Geometry(s: nat, E: nat, b: nat)

  ghost predicate Sensible(g: Geometry) {
    g.E > 0
  }

  function SetIndex(g: Geometry, addr: nat): (i: nat)
    ensures i < Pow2(g.s)
  {
    MaskLow(Shr(addr, g.b), g.s);
    And(Shr(addr, g.b), Pow2(g.s) - 1)
  }

  function Tag(g: Geometry, addr: nat): nat {
    Shr(addr, g.s + g.b)
  }

  /** Set index and tag together are the block number. */
  lemma BlockNumber(g: Geometry, a: nat, c: nat)
    ensures Shr(a, g.b) == Tag(g, a) * Pow2(g.s) + SetIndex(g, a)
    ensures SetIndex(g, a) == SetIndex(g, c) && Tag(g, a) == Tag(g, c) <==> Shr(a, g.b) == Shr(c, g.b)
  {
    SplitBlockNumber(g, a);
    SplitBlockNumber(g, c);
  }

  lemma SplitBlockNumber(g: Geometry, a: nat)
    ensures Shr(a, g.b) == Tag(g, a) * Pow2(g.s) + SetIndex(g, a)
    ensures Tag(g, a) == Shr(Shr(a, g.b), g.s)
  {
    var x, p := Shr(a, g.b), Pow2(g.s);
    ShrTwice(a, g.b, g.s);
    MaskLow(x, g.s);
    ShrIsDiv(x, g.s);
    DivMod(x, p);
  }

  lemma DivMod(x: nat, p: nat)
    requires p > 0
    ensures x == x / p * p + x % p
  {
  }

  datatype Sim = Sim(sets: seq<seq<Line>>, lru: nat, hits: nat, misses: nat, evictions: nat)

  ghost predicate Shaped(g: Geometry, sim: Sim) {
    |sim.sets| == Pow2(g.s) && forall i :: 0 <= i < |sim.sets| ==> |sim.sets[i]| == g.E
  }

  /** `initCache` */
  function Init(g: Geometry): (sim: Sim)
    ensures Shaped(g, sim)
  {
    Sim(seq(Pow2(g.s), i => seq(g.E, j => EMPTY_LINE)), 0, 0, 0, 0)
  }

  function OutcomeOf(g: Geometry, sim: Sim, addr: nat): Outcome
    requires Sensible(g) && Shaped(g, sim)
  {
    Access(sim.sets[SetIndex(g, addr)], Tag(g, addr), sim.lru).1
  }

  /** `cacheAccess` */
  function AccessAddr(g: Geometry, sim: Sim, addr: nat): (sim': Sim)
    requires Sensible(g) && Shaped(g, sim)
    ensures Shaped(g, sim')
  {
    var i := SetIndex(g, addr);
    var (lines, outcome) := Access(sim.sets[i], Tag(g, addr), sim.lru);
    Sim(sim.sets[i := lines], sim.lru + 1,
        sim.hits + Bit(outcome == Hit), sim.misses + Bit(outcome != Hit), sim.evictions + Bit(outcome == Evict))
  }

  function Run(g: Geometry, addrs: seq<nat>): (sim: Sim)
    requires Sensible(g)
    ensures Shaped(g, sim)
  {
    if addrs == [] then Init(g)
    else AccessAddr(g, Run(g, addrs[..|addrs| - 1]), addrs[|addrs| - 1])
  }

  // ---------------------------------------------------------------- the reference

  /** The tags used in set i, oldest use first. */
  function History(g: Geometry, addrs: seq<nat>, i: nat): seq<nat> {
    if addrs == [] then []
    else
      var n := |addrs| - 1;
      History(g, addrs[..n], i) + if SetIndex(g, addrs[n]) == i then [Tag(g, addrs[n])] else []
  }

  /** Set i took the very first access of the run. */
  predicate TookFirst(g: Geometry, addrs: seq<nat>, i: nat) {
    addrs != [] && SetIndex(g, addrs[0]) == i
  }

  /** The very first line of the run carries stamp 0, like an unused line, so the next access
      to its set replaces it unless it uses the same tag. */
  predicate FirstReplaced(first: bool, h: seq<nat>) {
    first && |h| >= 2 && h[1] != h[0]
  }

  function Effective(first: bool, h: seq<nat>): seq<nat> {
    if FirstReplaced(first, h) then h[1..] else h
  }

  function StackOf(g: Geometry, addrs: seq<nat>, i: nat): Stack {
    Recency(Effective(TookFirst(g, addrs, i), History(g, addrs, i)))
  }

  // ---------------------------------------------------------------- the refinement

  /** The only valid line is line 0, with stamp 0. */
  ghost predicate FirstOnly(lines: seq<Line>, t: nat) {
    lines != [] && lines[0] == Line(true, t, 0) && forall p :: 1 <= p < |lines| ==> lines[p] == EMPTY_LINE
  }

  ghost predicate Reflects(lines: seq<Line>, first: bool, h: seq<nat>, now: nat) {
    && lines != [] && |h| <= now
    && if first && |h| == 1 then FirstOnly(lines, h[0])
       else Implements(lines, Top(Recency(Effective(first, h)), |lines|), now)
  }

  lemma {:induction false} EmptyLines(n: nat)
    ensures CountValid(seq(n, j => EMPTY_LINE)) == 0
  {
    var lines := seq(n, j => EMPTY_LINE);
    if n > 0 {
      EmptyLines(n - 1);
      assert lines[1..] == seq(n - 1, j => EMPTY_LINE);
    }
  }

  lemma EmptyReflects(E: nat, now: nat)
    requires E > 0
    ensures Reflects(seq(E, j => EMPTY_LINE), false, [], now)
  {
    EmptyLines(E);
    var lines := seq(E, j => EMPTY_LINE);
    assert Top(Recency([]), E) == [];
  }

  /** In the recency stack an access does to the top n what TopAfter says. */
  lemma TopOfPush(st: Stack, t: nat, n: nat)
    requires Distinct(st) && n > 0
    ensures Top(Push(st, t), n) == TopAfter(Top(st, n), t, n)
  {
    if t in Top(st, n) {
      TopPushHit(st, t, n);
    } else {
      TopPushMiss(st, t, n);
    }
  }

  lemma ImplementsAccess(lines: seq<Line>, h: seq<nat>, t: nat, now: int)
    requires lines != [] && Implements(lines, Top(Recency(h), |lines|), now) && now >= 1
    ensures Implements(Access(lines, t, now).0, Top(Recency(h + [t]), |lines|), now + 1)
  {
    var top := Top(Recency(h), |lines|);
    RecencyDistinct(h);
    TopOfPush(Recency(h), t, |lines|);
    assert (h + [t])[..|h|] == h;
    if t in top {
      HitImplements(lines, top, t, now);
    } else if |top| < |lines| {
      FillImplements(lines, top, t, now);
    } else {
      EvictImplements(lines, top, t, now);
    }
  }

  lemma RecencyOne(t: nat)
    ensures Recency([t]) == [t] && Recency([t, t]) == [t]
  {
  }

  /** One line stamped `now` and unused lines otherwise implement a stack of one tag. */
  lemma OneLineImplements(lines: seq<Line>, t: nat, now: int)
    requires lines != [] && lines[0] == Line(true, t, now) && now >= 1
    requires forall p :: 1 <= p < |lines| ==> lines[p] == EMPTY_LINE
    ensures Implements(lines, [t], now + 1)
  {
    assert lines[1..] == seq(|lines| - 1, j => EMPTY_LINE);
    EmptyLines(|lines| - 1);
    assert Matches(lines[0], t);
  }

  /** The second access to the set of the run's first access */
  lemma SecondAccess(lines: seq<Line>, u: nat, t: nat, now: nat)
    requires FirstOnly(lines, u) && now >= 1
    ensures var (lines', outcome) := Access(lines, t, now);
            && Implements(lines', [t], now + 1)
            && outcome == (if t == u then Hit else Evict)
            && Top(Recency(Effective(true, [u, t])), |lines|) == [t]
  {
    RecencyOne(t);
    var lines' := lines[0 := Line(true, t, now)];
    if t != u {
      assert FindTag(lines, t, 0).None?;
      assert Oldest(lines, |lines|) == 0;
      assert [u, t][1..] == [t];
    } else {
      assert Matches(lines[0], t);
    }
    OneLineImplements(lines', t, now);
  }

  lemma AccessReflects(lines: seq<Line>, first: bool, h: seq<nat>, t: nat, now: nat)
    requires Reflects(lines, first, h, now) && now >= 1 && (first ==> h != [])
    ensures Reflects(Access(lines, t, now).0, first, h + [t], now + 1)
  {
    hide Implements, Access, Recency, FirstOnly;
    if first && |h| == 1 {
      SecondAccess(lines, h[0], t, now);
      assert h + [t] == [h[0], t];
    } else {
      ImplementsAccess(lines, Effective(first, h), t, now);
      assert Effective(first, h + [t]) == Effective(first, h) + [t];
    }
  }

  lemma FirstAccessReflects(lines: seq<Line>, t: nat)
    requires Reflects(lines, false, [], 0) && forall p :: 0 <= p < |lines| ==> lines[p] == EMPTY_LINE
    ensures Reflects(Access(lines, t, 0).0, true, [t], 1)
  {
  }

  // ---------------------------------------------------------------- theorems over every trace

  /** After any trace, every set reflects the recency stack of its own accesses. */
  lemma {:induction false} RunReflects(g: Geometry, addrs: seq<nat>, i: nat)
    requires Sensible(g) && i < Pow2(g.s)
    ensures Run(g, addrs).lru == |addrs|
    ensures Reflects(Run(g, addrs).sets[i], TookFirst(g, addrs, i), History(g, addrs, i), |addrs|)
    ensures TookFirst(g, addrs, i) ==> History(g, addrs, i) != []
    ensures addrs == [] ==> Run(g, addrs).sets[i] == seq(g.E, j => EMPTY_LINE)
  {
    if addrs == [] {
      EmptyReflects(g.E, 0);
    } else {
      RunReflects(g, addrs[..|addrs| - 1], i);
      StepReflects(g, addrs, i);
    }
  }

  lemma StepReflects(g: Geometry, addrs: seq<nat>, i: nat)
    requires Sensible(g) && i < Pow2(g.s) && addrs != []
    requires var before := addrs[..|addrs| - 1];
             && Run(g, before).lru == |before|
             && Reflects(Run(g, before).sets[i], TookFirst(g, before, i), History(g, before, i), |before|)
             && (TookFirst(g, before, i) ==> History(g, before, i) != [])
             && (before == [] ==> Run(g, before).sets[i] == seq(g.E, j => EMPTY_LINE))
    ensures Reflects(Run(g, addrs).sets[i], TookFirst(g, addrs, i), History(g, addrs, i), |addrs|)
    ensures TookFirst(g, addrs, i) ==> History(g, addrs, i) != []
  {
    hide Reflects, Access, Effective, Recency, Tag;
    var n := |addrs| - 1;
    var before, a := addrs[..n], addrs[n];
    var lines, h, first := Run(g, before).sets[i], History(g, before, i), TookFirst(g, addrs, i);
    if n == 0 {
      assert before == [];
      if SetIndex(g, a) == i {
        FirstAccessReflects(lines, Tag(g, a));
        assert h + [Tag(g, a)] == [Tag(g, a)];
      } else {
        EmptyReflects(g.E, 1);
      }
    } else {
      assert TookFirst(g, before, i) == first;
      if SetIndex(g, a) == i {
        AccessReflects(lines, first, h, Tag(g, a), n);
      } else {
        LaterReflects(lines, first, h, n);
        assert h + [] == h;
      }
    }
  }

  lemma LaterReflects(lines: seq<Line>, first: bool, h: seq<nat>, now: nat)
    requires Reflects(lines, first, h, now)
    ensures Reflects(lines, first, h, now + 1)
  {
  }

  lemma ReflectsResidents(lines: seq<Line>, first: bool, h: seq<nat>, now: nat)
    requires Reflects(lines, first, h, now)
    ensures DistinctTags(lines)
    ensures forall t :: Resident(lines, t) <==> t in Top(Recency(Effective(first, h)), |lines|)
  {
  }

  /** The resident tags of every set are the top E of its recency stack, and an access hits
      exactly if its tag lies at a depth below E. */
  lemma ResidentsAreTopOfStack(g: Geometry, addrs: seq<nat>, i: nat)
    requires Sensible(g) && i < Pow2(g.s)
    ensures DistinctTags(Run(g, addrs).sets[i])
    ensures forall t :: Resident(Run(g, addrs).sets[i], t) <==> t in Top(StackOf(g, addrs, i), g.E)
    ensures forall t :: Resident(Run(g, addrs).sets[i], t) <==>
                          t in StackOf(g, addrs, i) && Depth(StackOf(g, addrs, i), t) < g.E
  {
    RunReflects(g, addrs, i);
    var lines := Run(g, addrs).sets[i];
    ReflectsResidents(lines, TookFirst(g, addrs, i), History(g, addrs, i), |addrs|);
    forall t ensures t in Top(StackOf(g, addrs, i), g.E) <==>
                       t in StackOf(g, addrs, i) && Depth(StackOf(g, addrs, i), t) < g.E {
      DepthMeansTop(StackOf(g, addrs, i), t, g.E);
    }
  }

  lemma HitIffShallow(g: Geometry, addrs: seq<nat>, a: nat)
    requires Sensible(g)
    ensures OutcomeOf(g, Run(g, addrs), a) == Hit <==> Tag(g, a) in Top(StackOf(g, addrs, SetIndex(g, a)), g.E)
  {
    var i := SetIndex(g, a);
    ResidentsAreTopOfStack(g, addrs, i);
    AccessBasics(Run(g, addrs).sets[i], Tag(g, a), Run(g, addrs).lru);
  }

  /** A miss evicts exactly if the set is full or holds only the run's very first line, and
      then it evicts the deepest resident. */
  lemma EvictIffFull(g: Geometry, addrs: seq<nat>, a: nat)
    requires Sensible(g) && OutcomeOf(g, Run(g, addrs), a) != Hit
    ensures var i := SetIndex(g, a); var st := StackOf(g, addrs, i); var lines := Run(g, addrs).sets[i];
            var victim := lines[Oldest(lines, |lines|)];
            && (OutcomeOf(g, Run(g, addrs), a) == Evict <==>
                  |st| >= g.E || (TookFirst(g, addrs, i) && |History(g, addrs, i)| == 1))
            && (OutcomeOf(g, Run(g, addrs), a) == Evict ==>
                  victim.valid && |Top(st, g.E)| > 0 && victim.tag == Top(st, g.E)[|Top(st, g.E)| - 1])
  {
    var i := SetIndex(g, a);
    RunReflects(g, addrs, i);
    HitIffShallow(g, addrs, a);
    var lines, h, first := Run(g, addrs).sets[i], History(g, addrs, i), TookFirst(g, addrs, i);
    if first && |h| == 1 {
      RecencyOne(h[0]);
      assert h == [h[0]];
      assert Oldest(lines, |lines|) == 0;
    } else {
      CountAll(lines);
      if |Top(StackOf(g, addrs, i), g.E)| < g.E {
        UnusedIsOldest(lines, |addrs|);
      } else {
        OldestIsDeepest(lines, Top(StackOf(g, addrs, i), g.E), |addrs|);
      }
    }
  }

  /** Inclusion: with the same sets and blocks, whatever E lines hold, more lines hold too. */
  lemma Inclusion(g: Geometry, more: nat, addrs: seq<nat>, i: nat, t: nat)
    requires Sensible(g) && g.E <= more && i < Pow2(g.s)
    requires Resident(Run(g, addrs).sets[i], t)
    ensures Resident(Run(g.(E := more), addrs).sets[i], t)
  {
    var g' := g.(E := more);
    ResidentsAreTopOfStack(g, addrs, i);
    SameStack(g, more, addrs, i);
    ResidentsAreTopOfStack(g', addrs, i);
  }

  /** The recency stack does not depend on the number of lines. */
  lemma {:induction false} SameStack(g: Geometry, more: nat, addrs: seq<nat>, i: nat)
    ensures History(g.(E := more), addrs, i) == History(g, addrs, i)
    ensures StackOf(g.(E := more), addrs, i) == StackOf(g, addrs, i)
  {
    if addrs != [] {
      SameStack(g, more, addrs[..|addrs| - 1], i);
    }
  }

  lemma HitStaysHit(g: Geometry, more: nat, addrs: seq<nat>, a: nat)
    requires Sensible(g) && g.E <= more
    requires OutcomeOf(g, Run(g, addrs), a) == Hit
    ensures OutcomeOf(g.(E := more), Run(g.(E := more), addrs), a) == Hit
  {
    hide OutcomeOf, Run, StackOf, History;
    var i := SetIndex(g, a);
    HitIffShallow(g, addrs, a);
    SameStack(g, more, addrs, i);
    HitIffShallow(g.(E := more), addrs, a);
  }

  /** Misses never increase with associativity. */
  lemma {:induction false} MissesMonotone(g: Geometry, more: nat, addrs: seq<nat>)
    requires Sensible(g) && g.E <= more
    ensures Run(g.(E := more), addrs).misses <= Run(g, addrs).misses
    ensures Run(g.(E := more), addrs).hits >= Run(g, addrs).hits
  {
    if addrs != [] {
      var n := |addrs| - 1;
      MissesMonotone(g, more, addrs[..n]);
      if OutcomeOf(g, Run(g, addrs[..n]), addrs[n]) == Hit {
        HitStaysHit(g, more, addrs[..n], addrs[n]);
      }
    }
  }

  // ---------------------------------------------------------------- conservation

  function ValidLines(sets: seq<seq<Line>>): nat {
    if sets == [] then 0 else CountValid(sets[0]) + ValidLines(sets[1..])
  }

  lemma {:induction false} ValidLinesUpdate(sets: seq<seq<Line>>, i: nat, lines: seq<Line>)
    requires i < |sets|
    ensures ValidLines(sets[i := lines]) == ValidLines(sets) - CountValid(sets[i]) + CountValid(lines)
  {
    if i == 0 {
      assert sets[0 := lines][1..] == sets[1..];
    } else {
      ValidLinesUpdate(sets[1..], i - 1, lines);
      assert sets[i := lines][1..] == sets[1..][i - 1 := lines];
    }
  }

  lemma {:induction false} ValidLinesBound(sets: seq<seq<Line>>, E: nat)
    requires forall i :: 0 <= i < |sets| ==> |sets[i]| == E
    ensures ValidLines(sets) <= E * |sets|
  {
    if sets != [] {
      ValidLinesBound(sets[1..], E);
      assert E * |sets| == E + E * (|sets| - 1);
    }
  }

  lemma {:induction false} EmptySets(n: nat, E: nat)
    ensures ValidLines(seq(n, i => seq(E, j => EMPTY_LINE))) == 0
  {
    if n > 0 {
      EmptySets(n - 1, E);
      EmptyLines(E);
      var sets := seq(n, i => seq(E, j => EMPTY_LINE));
      assert sets[1..] == seq(n - 1, i => seq(E, j => EMPTY_LINE));
    }
  }

  /** Every access is a hit or a miss, and every miss fills an unused line or evicts. */
  lemma {:induction false} Conservation(g: Geometry, addrs: seq<nat>)
    requires Sensible(g)
    ensures var sim := Run(g, addrs);
            && sim.hits + sim.misses == |addrs|
            && sim.misses - sim.evictions == ValidLines(sim.sets) <= g.E * Pow2(g.s)
  {
    var sim := Run(g, addrs);
    if addrs == [] {
      EmptySets(Pow2(g.s), g.E);
    } else {
      var n := |addrs| - 1;
      var before := Run(g, addrs[..n]);
      var i, t := SetIndex(g, addrs[n]), Tag(g, addrs[n]);
      Conservation(g, addrs[..n]);
      ResidentsAreTopOfStack(g, addrs[..n], i);
      AccessBasics(before.sets[i], t, before.lru);
      ValidLinesUpdate(before.sets, i, Access(before.sets[i], t, before.lru).0);
    }
    ValidLinesBound(sim.sets, g.E);
  }

  /** Accessing the same address twice in a row hits the second time. */
  lemma SecondAccessHits(g: Geometry, addrs: seq<nat>, a: nat)
    requires Sensible(g)
    ensures OutcomeOf(g, Run(g, addrs + [a]), a) == Hit
  {
    var i := SetIndex(g, a);
    var sim := Run(g, addrs);
    ResidentsAreTopOfStack(g, addrs, i);
    AccessBasics(sim.sets[i], Tag(g, a), sim.lru);
    assert (addrs + [a])[..|addrs|] == addrs;
    AccessBasics(Run(g, addrs + [a]).sets[i], Tag(g, a), sim.lru + 1);
  }

  // ---------------------------------------------------------------- textbook LRU

  /** Forgetting the oldest use of u changes the stack only if u was not used again, and then
      u was at the bottom. */
  lemma {:induction false} ForgetFirst(u: nat, h: seq<nat>)
    ensures Recency([u] + h) == if u in h then Recency(h) else Recency(h) + [u]
  {
    if h == [] {
      RecencyOne(u);
      assert [u] + h == [u];
    } else {
      var n := |h| - 1;
      var t := h[n];
      ForgetFirst(u, h[..n]);
      assert ([u] + h)[..n + 1] == [u] + h[..n];
      assert Recency([u] + h) == Push(Recency([u] + h[..n]), t);
      assert h == h[..n] + [t];
      RecencyDistinct(h[..n]);
      if u !in h[..n] {
        PushBottom(Recency(h[..n]), u, t);
      }
    }
  }

  lemma PushBottom(st: Stack, u: nat, t: nat)
    requires u !in st
    ensures Push(st + [u], t) == if t == u then Push(st, t) else Push(st, t) + [u]
  {
    WithoutBottom(st, u, t);
    WithoutAbsent(st, u);
    assert [t] + (Without(st, t) + [u]) == ([t] + Without(st, t)) + [u];
  }

  lemma {:induction false} WithoutBottom(st: Stack, u: nat, t: nat)
    requires u !in st
    ensures Without(st + [u], t) == if t == u then st else Without(st, t) + [u]
  {
    if st == [] {
      assert Without([], t) == [];
    } else {
      WithoutBottom(st[1..], u, t);
      assert (st + [u])[1..] == st[1..] + [u];
    }
  }

  /** Exactly when the lines of a set are those of textbook LRU, which would keep the E most
      recently used tags of the whole history: unless the run's first line was replaced early,
      its tag was not used again, and there are still fewer than E other tags. */
  lemma TextbookIff(g: Geometry, addrs: seq<nat>, i: nat)
    requires Sensible(g) && i < Pow2(g.s)
    ensures var h := History(g, addrs, i); var first := TookFirst(g, addrs, i);
            (forall t :: Resident(Run(g, addrs).sets[i], t) <==> t in Top(Recency(h), g.E))
            <==> (!FirstReplaced(first, h) || h[0] in h[1..] || |Recency(h[1..])| >= g.E)
  {
    var h, first := History(g, addrs, i), TookFirst(g, addrs, i);
    ResidentsAreTopOfStack(g, addrs, i);
    if FirstReplaced(first, h) && h[0] !in h[1..] {
      var u, st := h[0], Recency(h[1..]);
      assert h == [u] + h[1..];
      ForgetFirst(u, h[1..]);
      RecencyDistinct(h[1..]);
      if |st| < g.E {
        assert Top(st + [u], g.E)[|st|] == u;
        assert u in Top(Recency(h), g.E) && u !in Top(st, g.E);
      } else {
        assert (st + [u])[..g.E] == st[..g.E];
      }
    } else if FirstReplaced(first, h) {
      assert h == [h[0]] + h[1..];
      ForgetFirst(h[0], h[1..]);
    }
  }

  /** The smallest trace that shows the difference: two blocks of one set, two lines. */
  lemma FirstLineIsEvictedEarly()
    ensures var g := Geometry(1, 2, 1); var trace := [0, 4];
            && Run(g, trace).evictions == 1
            && OutcomeOf(g, Run(g, trace), 0) != Hit
  {
  }

  // ---------------------------------------------------------------- traces

  /** One record of a trace file: 'I' fetches are skipped, 'M' accesses its address twice, and
      every other kind once. */
  datatype Record = Record(kind: char, addr: nat)

  function Accesses(records: seq<Record>): seq<nat> {
    if records == [] then []
    else
      var n := |records| - 1;
      var r := records[n];
      Accesses(records[..n]) + if r.kind == 'I' then [] else if r.kind == 'M' then [r.addr, r.addr] else [r.addr]
  }

  function CountKind(records: seq<Record>, kind: char): nat {
    if records == [] then 0
    else CountKind(records[..|records| - 1], kind) + Bit(records[|records| - 1].kind == kind)
  }

  /** A whole trace file: hits and misses add up to one per load or store and two per modify. */
  lemma {:induction false} TraceTotals(g: Geometry, records: seq<Record>)
    requires Sensible(g)
    ensures var sim := Run(g, Accesses(records));
            sim.hits + sim.misses == |records| - CountKind(records, 'I') + CountKind(records, 'M')
  {
    Conservation(g, Accesses(records));
    CountAccesses(records);
  }

  lemma {:induction false} CountAccesses(records: seq<Record>)
    ensures |Accesses(records)| == |records| - CountKind(records, 'I') + CountKind(records, 'M')
  {
    if records != [] {
      CountAccesses(records[..|records| - 1]);
    }
  }

  /** What one more record does: a fetch nothing; any other kind accesses its address; and a modify
      counts what a load of the address counts and one hit more. */
  lemma OneMoreRecord(g: Geometry, records: seq<Record>, kind: char, a: nat)
    requires Sensible(g)
    ensures var accesses := Accesses(records + [Record(kind, a)]);
            && (kind == 'I' ==> accesses == Accesses(records))
            && (kind != 'I' && kind != 'M' ==> accesses == Accesses(records) + [a])
            && (kind == 'M' ==>
                  var load, sim := Run(g, Accesses(records) + [a]), Run(g, accesses);
                  sim.hits == load.hits + 1 && sim.misses == load.misses && sim.evictions == load.evictions)
  {
    hide AccessAddr, SetIndex, Tag;
    assert (records + [Record(kind, a)])[..|records|] == records;
    var before := Accesses(records);
    if kind == 'M' {
      SecondAccessHits(g, before, a);
      assert before + [a, a] == before + [a] + [a];
      assert (before + [a] + [a])[..|before| + 1] == before + [a];
      HitCounts(g, Run(g, before + [a]), a);
    }
  }

  lemma HitCounts(g: Geometry, sim: Sim, a: nat)
    requires Sensible(g) && Shaped(g, sim) && OutcomeOf(g, sim, a) == Hit
    ensures var sim' := AccessAddr(g, sim, a);
            sim'.hits == sim.hits + 1 && sim'.misses == sim.misses && sim'.evictions == sim.evictions
  {
  }
}
