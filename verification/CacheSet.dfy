/** One set of the cache simulator in ASSN4/csim.c: an array of lines with time stamps. */
module CacheSet {
  import opened Options

  datatype Line = Line(valid: bool, tag: nat, lruCount: int)

  const EMPTY_LINE := Line(false, 0, 0)

  /** What an access does, and what it adds to the counters. */
  datatype Outcome = Hit | Fill | Evict

  predicate Matches(l: Line, tag: nat) {
    l.valid && l.tag == tag
  }

  /** The first line at index i or later that is valid and carries the tag. */
  function FindTag(lines: seq<Line>, tag: nat, i: nat): (r: Option<nat>)
    requires i <= |lines|
    ensures r.Some? ==> i <= r.value < |lines| && Matches(lines[r.value], tag)
    ensures r.None? ==> forall j :: i <= j < |lines| ==> !Matches(lines[j], tag)
    decreases |lines| - i
  {
    if i == |lines| then None
    else if Matches(lines[i], tag) then Some(i)
    else FindTag(lines, tag, i + 1)
  }

  /** The line with the smallest stamp among the first k, the leftmost one among equals. */
  function Oldest(lines: seq<Line>, k: nat): (r: nat)
    requires 1 <= k <= |lines|
    ensures r < k
    ensures forall j :: 0 <= j < k ==> lines[r].lruCount <= lines[j].lruCount
    ensures forall j :: 0 <= j < r ==> lines[r].lruCount < lines[j].lruCount
  {
    if k == 1 then 0
    else
      var best := Oldest(lines, k - 1);
      if lines[best].lruCount > lines[k - 1].lruCount then k - 1 else best
  }

  /** One access to the set with the global counter at `now`. */
  function Access(lines: seq<Line>, tag: nat, now: int): (r: (seq<Line>, Outcome))
    requires lines != []
    ensures |r.0| == |lines|
  {
    match FindTag(lines, tag, 0)
    case Some(i) => (lines[i := lines[i].(lruCount := now)], Hit)
    case None =>
      var v := Oldest(lines, |lines|);
      (lines[v := Line(true, tag, now)], if lines[v].valid then Evict else Fill)
  }

  function CountValid(lines: seq<Line>): (n: nat)
    ensures n <= |lines|
  {
    if lines == [] then 0 else (if lines[0].valid then 1 else 0) + CountValid(lines[1..])
  }

  function Bit(b: bool): nat { if b then 1 else 0 }

  lemma {:induction false} CountUpdate(lines: seq<Line>, i: nat, l: Line)
    requires i < |lines|
    ensures CountValid(lines[i := l]) == CountValid(lines) - Bit(lines[i].valid) + Bit(l.valid)
  {
    if i == 0 {
      assert lines[0 := l][1..] == lines[1..];
    } else {
      CountUpdate(lines[1..], i - 1, l);
      assert lines[i := l][1..] == lines[1..][i - 1 := l];
    }
  }

  lemma {:induction false} CountAll(lines: seq<Line>)
    ensures CountValid(lines) == |lines| <==> forall j :: 0 <= j < |lines| ==> lines[j].valid
  {
    if lines != [] {
      CountAll(lines[1..]);
      assert forall j :: 0 <= j < |lines| - 1 ==> lines[1..][j] == lines[j + 1];
      if CountValid(lines) == |lines| {
        forall j | 0 <= j < |lines| ensures lines[j].valid {
          if j > 0 { assert lines[1..][j - 1] == lines[j]; }
        }
      }
      if forall j :: 0 <= j < |lines| ==> lines[j].valid {
        forall j | 0 <= j < |lines[1..]| ensures lines[1..][j].valid { assert lines[1..][j] == lines[j + 1]; }
      }
    }
  }

  /** No two valid lines carry the same tag. */
  ghost predicate DistinctTags(lines: seq<Line>) {
    forall p, q :: 0 <= p < q < |lines| && lines[p].valid && lines[q].valid ==> lines[p].tag != lines[q].tag
  }

  ghost predicate Resident(lines: seq<Line>, tag: nat) {
    exists p :: 0 <= p < |lines| && Matches(lines[p], tag)
  }

  /** Whatever the stamps are: an access hits exactly a resident tag, makes its tag resident,
      keeps valid tags distinct, and a line becomes valid exactly when it fills. */
  lemma AccessBasics(lines: seq<Line>, tag: nat, now: int)
    requires lines != [] && DistinctTags(lines)
    ensures var (lines', outcome) := Access(lines, tag, now);
            && |lines'| == |lines|
            && (outcome == Hit <==> Resident(lines, tag))
            && Resident(lines', tag)
            && DistinctTags(lines')
            && CountValid(lines') == CountValid(lines) + Bit(outcome == Fill)
  {
    match FindTag(lines, tag, 0)
    case Some(i) =>
      RefillBasics(lines, i, tag, now);
    case None =>
      RefillBasics(lines, Oldest(lines, |lines|), tag, now);
  }

  lemma RefillBasics(lines: seq<Line>, i: nat, tag: nat, now: int)
    requires i < |lines| && DistinctTags(lines)
    requires forall p :: 0 <= p < |lines| && p != i ==> !Matches(lines[p], tag)
    ensures var lines' := lines[i := Line(true, tag, now)];
            && Resident(lines', tag) && DistinctTags(lines')
            && CountValid(lines') == CountValid(lines) + Bit(!lines[i].valid)
  {
    var lines' := lines[i := Line(true, tag, now)];
    assert Matches(lines'[i], tag);
    forall p | 0 <= p < |lines| && p != i && lines'[p].valid ensures lines'[p].tag != tag {
      assert !Matches(lines[p], tag);
    }
    CountUpdate(lines, i, lines'[i]);
  }
}
