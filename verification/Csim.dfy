/** The cache simulator of ASSN4/csim.c: lines restamped and refilled in place. */
module Csim {
  import opened Options
  import opened Bits
  import opened CacheSet
  import opened CacheRun

  const INT_MAX := 0x7FFF_FFFF

  /** The global counter is a 32-bit int: the model requires that it does not overflow. */
  class Simulator {
    const g: Geometry
    const lines: array2<Line>
    var lru: nat
    var hits: nat
    var misses: nat
    var evictions: nat

    ghost predicate Valid()
      reads this, lines
    {
      && Sensible(g) && lines.Length0 == Pow2(g.s) && lines.Length1 == g.E
      && forall i, j :: 0 <= i < lines.Length0 && 0 <= j < lines.Length1 ==> 0 <= lines[i, j].lruCount <= lru
    }

    /** The lines of set i */
    ghost function Set(i: nat): (r: seq<Line>)
      requires i < lines.Length0
      reads lines
      ensures |r| == lines.Length1 && forall j :: 0 <= j < |r| ==> r[j] == lines[i, j]
    {
      seq(lines.Length1, j requires 0 <= j < lines.Length1 reads lines => lines[i, j])
    }

    ghost function State(): (sim: Sim)
      requires Valid()
      reads this, lines
      ensures Shaped(g, sim)
      ensures forall i :: 0 <= i < lines.Length0 ==> sim.sets[i] == Set(i)
    {
      Sim(seq(lines.Length0, i requires 0 <= i < lines.Length0 reads lines => Set(i)), lru, hits, misses, evictions)
    }

    /** `initCache` */
    constructor (g: Geometry)
      requires Sensible(g)
      ensures Valid() && this.g == g && fresh(lines)
      ensures State() == Init(g)
    {
      this.g := g;
      lines := new Line[Pow2(g.s), g.E];
      lru, hits, misses, evictions := 0, 0, 0, 0;
      new;
      for i := 0 to lines.Length0
        invariant forall x, y :: 0 <= x < i && 0 <= y < g.E ==> lines[x, y] == EMPTY_LINE
        invariant lru == hits == misses == evictions == 0
      {
        for j := 0 to g.E
          invariant forall x, y :: 0 <= x < i && 0 <= y < g.E ==> lines[x, y] == EMPTY_LINE
          invariant forall y :: 0 <= y < j ==> lines[i, y] == EMPTY_LINE
          invariant lru == hits == misses == evictions == 0
        {
          lines[i, j] := Line(false, 0, 0);
        }
      }
      forall i | 0 <= i < lines.Length0 ensures Set(i) == Init(g).sets[i] { }
      assert State().sets == Init(g).sets;
    }

    /** Rewriting one line of set i */
    method PutLine(i: nat, j: nat, l: Line)
      requires Valid() && i < lines.Length0 && j < lines.Length1 && 0 <= l.lruCount <= lru
      modifies lines
      ensures Valid()
      ensures Set(i) == old(Set(i))[j := l]
      ensures State() == old(State()).(sets := old(State()).sets[i := Set(i)])
    {
      lines[i, j] := l;
      forall x | 0 <= x < lines.Length0 && x != i ensures Set(x) == old(Set(x)) { }
    }

    /** The first loop of `cacheAccess`: the line that holds the tag, if any */
    method Lookup(index: nat, tag: nat) returns (isHit: bool, blockIdx: nat)
      requires Valid() && index < lines.Length0
      ensures var r := FindTag(Set(index), tag, 0);
              if isHit then r == Some(blockIdx) else r == None
    {
      ghost var before := Set(index);
      blockIdx := 0;
      while blockIdx < g.E
        invariant 0 <= blockIdx <= g.E
        invariant FindTag(before, tag, 0) == FindTag(before, tag, blockIdx)
      {
        if tag == lines[index, blockIdx].tag && lines[index, blockIdx].valid {
          return true, blockIdx;
        }
        blockIdx := blockIdx + 1;
      }
      isHit := false;
    }

    /** The second loop of `cacheAccess`: the line with the smallest stamp.  No stamp reaches the
        initial bound, so the first line always becomes the first candidate. */
    method PickVictim(index: nat) returns (evictionBlock: nat)
      requires Valid() && index < lines.Length0 && lru <= INT_MAX
      ensures |Set(index)| > 0 && evictionBlock == Oldest(Set(index), |Set(index)|)
    {
      ghost var before := Set(index);
      evictionBlock := 0;
      var evictionLru := 0xFFFF_FFFF_FFFF_FFFF;
      var blockIdx := 0;
      while blockIdx < g.E
        invariant 0 <= blockIdx <= g.E
        invariant if blockIdx == 0 then evictionLru == 0xFFFF_FFFF_FFFF_FFFF
                  else evictionBlock == Oldest(before, blockIdx) && evictionLru == before[evictionBlock].lruCount
      {
        if evictionLru > lines[index, blockIdx].lruCount {
          evictionBlock := blockIdx;
          evictionLru := lines[index, blockIdx].lruCount;
        }
        blockIdx := blockIdx + 1;
      }
    }

    /** The miss branch of `cacheAccess` */
    method Refill(index: nat, tag: nat)
      requires Valid() && index < lines.Length0 && lru <= INT_MAX
      modifies this`misses, this`evictions, lines
      ensures Valid()
      ensures var before := old(Set(index)); var victim := Oldest(before, |before|);
              State() == old(State()).(sets := old(State()).sets[index := before[victim := Line(true, tag, lru)]],
                                       misses := old(misses) + 1,
                                       evictions := old(evictions) + Bit(before[victim].valid))
    {
      hide Oldest, Init;
      var evictionBlock := PickVictim(index);
      var evicts := lines[index, evictionBlock].valid;
      PutLine(index, evictionBlock, Line(true, tag, lru));
      if evicts {
        evictions := evictions + 1;
      }
      misses := misses + 1;
    }

    /** `cacheAccess` */
    method CacheAccess(addr: nat)
      requires Valid() && lru < INT_MAX
      modifies this, lines
      ensures Valid() && lru == old(lru) + 1
      ensures State() == AccessAddr(g, old(State()), addr)
    {
      hide Init, Run, FindTag, Oldest, Shr;
      var index := SetIndex(g, addr);
      var tag := Shr(addr, g.s + g.b);
      ghost var s0 := State();
      var isHit, blockIdx := Lookup(index, tag);
      if isHit {
        PutLine(index, blockIdx, lines[index, blockIdx].(lruCount := lru));
        hits := hits + 1;
      } else {
        Refill(index, tag);
      }
      lru := lru + 1;
    }

    /** `simulate` on the records of a trace file */
    method Simulate(records: seq<Record>)
      requires Valid() && State() == Init(g) && |Accesses(records)| <= INT_MAX
      modifies this, lines
      ensures Valid()
      ensures State() == Run(g, Accesses(records))
    {
      hide AccessAddr;
      for n := 0 to |records|
        invariant Valid()
        invariant State() == Run(g, Accesses(records[..n])) && lru == |Accesses(records[..n])|
      {
        AccessesStep(records, n);
        ghost var done := Accesses(records[..n]);
        if records[n].kind == 'I' {
          continue;
        }
        RunMore(g, done, records[n].addr);
        CacheAccess(records[n].addr);
        if records[n].kind == 'M' {
          RunMore(g, done + [records[n].addr], records[n].addr);
          CacheAccess(records[n].addr);
        }
      }
      assert records[..|records|] == records;
    }
  }

  lemma RunMore(g: Geometry, addrs: seq<nat>, a: nat)
    requires Sensible(g)
    ensures Run(g, addrs + [a]) == AccessAddr(g, Run(g, addrs), a)
  {
  }

  lemma AccessesStep(records: seq<Record>, n: nat)
    requires n < |records|
    ensures var done, r := Accesses(records[..n]), records[n];
            && Accesses(records[..n + 1]) ==
                 (if r.kind == 'I' then done
                  else if r.kind == 'M' then done + [r.addr] + [r.addr]
                  else done + [r.addr])
            && |Accesses(records[..n + 1])| <= |Accesses(records)|
  {
    assert records[..n + 1][..n] == records[..n];
    AccessesGrow(records, n + 1);
    var done, r := Accesses(records[..n]), records[n];
    assert done + [] == done && done + [r.addr, r.addr] == done + [r.addr] + [r.addr];
  }

  lemma {:induction false} AccessesGrow(records: seq<Record>, n: nat)
    requires n <= |records|
    ensures |Accesses(records[..n])| <= |Accesses(records)|
    decreases |records|
  {
    if n < |records| {
      var m := |records| - 1;
      AccessesGrow(records[..m], n);
      assert records[..m][..n] == records[..n];
    } else {
      assert records[..n] == records;
    }
  }
}
