/** A set of stamped lines implements the top of a recency stack. */
module LruSet {
  import opened CacheSet
  import opened RecencyStack

  ghost predicate Above(st: Stack, a: nat, b: nat) {
    exists i, j :: 0 <= i < j < |st| && st[i] == a && st[j] == b
  }

  /** Unused lines carry stamp 0, used lines stamps between 1 and the counter. */
  ghost predicate Stamped(lines: seq<Line>, now: int) {
    forall p :: 0 <= p < |lines| ==>
      if lines[p].valid then 1 <= lines[p].lruCount < now else lines[p].lruCount == 0
  }

  /** A tag higher in the stack has the later stamp. */
  ghost predicate Ordered(lines: seq<Line>, top: Stack) {
    forall p, q | 0 <= p < |lines| && 0 <= q < |lines| ::
      lines[p].valid && lines[q].valid && Above(top, lines[p].tag, lines[q].tag) ==>
        lines[p].lruCount > lines[q].lruCount
  }

  /** The valid lines hold exactly the tags of `top`, each once, and the stamps order them. */
  ghost predicate Implements(lines: seq<Line>, top: Stack, now: int) {
    && lines != [] && Distinct(top)
    && DistinctTags(lines)
    && CountValid(lines) == |top|
    && (forall t :: Resident(lines, t) <==> t in top)
    && Stamped(lines, now)
    && Ordered(lines, top)
  }

  /** The stack after an access, cut to what n lines can hold. */
  function TopAfter(top: Stack, t: nat, n: nat): Stack
    requires |top| <= n && n > 0
  {
    if t in top then Push(top, t)
    else [t] + if |top| < n then top else top[..n - 1]
  }

  lemma TopAfterFacts(top: Stack, t: nat, n: nat)
    requires |top| <= n && n > 0 && Distinct(top)
    ensures var top' := TopAfter(top, t, n);
            && Distinct(top')
            && |top'| == (if t in top || |top| == n then |top| else |top| + 1)
            && (forall u :: u in top' <==> u == t || (u in top && (t in top || |top| < n || u != top[n - 1])))
            && (forall a, b :: Above(top', a, b) ==> b != t && (a == t || Above(top, a, b)))
  {
    if t in top {
      TopAfterHit(top, t, n);
    } else {
      TopAfterMiss(top, t, n);
    }
  }

  lemma TopAfterHit(top: Stack, t: nat, n: nat)
    requires |top| <= n && n > 0 && Distinct(top) && t in top
    ensures var top' := TopAfter(top, t, n);
            && Distinct(top') && |top'| == |top|
            && (forall u :: u in top' <==> u in top)
            && (forall a, b :: Above(top', a, b) ==> b != t && (a == t || Above(top, a, b)))
  {
    DepthMeansTop(top, t, n);
    WithoutAt(top, t, Depth(top, t));
    WithoutFacts(top, t);
    forall a, b | Above(TopAfter(top, t, n), a, b) ensures b != t && (a == t || Above(top, a, b)) {
      AboveAfterHit(top, t, n, a, b);
    }
  }

  lemma AboveAfterHit(top: Stack, t: nat, n: nat, a: nat, b: nat)
    requires |top| <= n && n > 0 && Distinct(top) && t in top && Above(TopAfter(top, t, n), a, b)
    ensures b != t && (a == t || Above(top, a, b))
  {
    PushMoves(top, t);
    var top' := Push(top, t);
    var i, j :| 0 <= i < j < |top'| && top'[i] == a && top'[j] == b;
    var d := Depth(top, t);
    var j' := if j <= d then j - 1 else j;
    assert top[j'] == b && j' != d;
    if i > 0 {
      var i' := if i <= d then i - 1 else i;
      assert top[i'] == a && i' < j';
    }
  }

  lemma TopAfterMiss(top: Stack, t: nat, n: nat)
    requires |top| <= n && n > 0 && Distinct(top) && t !in top
    ensures var top' := TopAfter(top, t, n);
            && Distinct(top')
            && |top'| == (if |top| == n then |top| else |top| + 1)
            && (forall u :: u in top' <==> u == t || (u in top && (|top| < n || u != top[n - 1])))
            && (forall a, b :: Above(top', a, b) ==> b != t && (a == t || Above(top, a, b)))
  {
  }

  /** A line that the access restamps or refills keeps the stamps in step with the stack. */
  lemma RestampKeepsOrder(lines: seq<Line>, top: Stack, top': Stack, i: nat, t: nat, now: int)
    requires i < |lines| && Stamped(lines, now) && Ordered(lines, top) && now >= 1
    requires forall a, b :: Above(top', a, b) ==> b != t && (a == t || Above(top, a, b))
    requires forall p :: 0 <= p < |lines| && p != i ==> !Matches(lines[p], t)
    ensures Stamped(lines[i := Line(true, t, now)], now + 1)
    ensures Ordered(lines[i := Line(true, t, now)], top')
  {
  }

  lemma HitImplements(lines: seq<Line>, top: Stack, t: nat, now: int)
    requires Implements(lines, top, now) && now >= 1 && t in top
    ensures |top| <= |lines|
    ensures Access(lines, t, now).1 == Hit
    ensures Implements(Access(lines, t, now).0, TopAfter(top, t, |lines|), now + 1)
  {
    AccessBasics(lines, t, now);
    TopAfterFacts(top, t, |lines|);
    var i := FindTag(lines, t, 0).value;
    var top' := TopAfter(top, t, |lines|);
    RestampKeepsOrder(lines, top, top', i, t, now);
    var lines' := lines[i := Line(true, t, now)];
    assert lines' == Access(lines, t, now).0;
    SameResidents(lines, i, t, now, top');
  }

  lemma SameResidents(lines: seq<Line>, i: nat, t: nat, now: int, top': Stack)
    requires i < |lines| && Matches(lines[i], t)
    ensures forall u :: Resident(lines[i := Line(true, t, now)], u) <==> Resident(lines, u)
  {
    var lines' := lines[i := Line(true, t, now)];
    forall u ensures Resident(lines', u) <==> Resident(lines, u) {
      if Resident(lines, u) {
        var p :| 0 <= p < |lines| && Matches(lines[p], u);
        assert Matches(lines'[p], u);
      }
      if Resident(lines', u) {
        var p :| 0 <= p < |lines| && Matches(lines'[p], u);
        assert Matches(lines[p], u);
      }
    }
  }

  /** With a line to spare, a miss fills an unused line. */
  lemma FillImplements(lines: seq<Line>, top: Stack, t: nat, now: int)
    requires Implements(lines, top, now) && now >= 1 && t !in top && |top| < |lines|
    ensures Access(lines, t, now).1 == Fill
    ensures Implements(Access(lines, t, now).0, TopAfter(top, t, |lines|), now + 1)
  {
    AccessBasics(lines, t, now);
    TopAfterFacts(top, t, |lines|);
    UnusedIsOldest(lines, now) by { CountAll(lines); }
    var v := Oldest(lines, |lines|);
    var top' := TopAfter(top, t, |lines|);
    RestampKeepsOrder(lines, top, top', v, t, now);
    FillResidents(lines, v, t, now);
  }

  lemma UnusedIsOldest(lines: seq<Line>, now: int)
    requires lines != [] && Stamped(lines, now) && exists j :: 0 <= j < |lines| && !lines[j].valid
    ensures !lines[Oldest(lines, |lines|)].valid
  {
  }

  lemma FillResidents(lines: seq<Line>, v: nat, t: nat, now: int)
    requires v < |lines| && !lines[v].valid
    ensures forall u :: Resident(lines[v := Line(true, t, now)], u) <==> u == t || Resident(lines, u)
  {
    var lines' := lines[v := Line(true, t, now)];
    assert Matches(lines'[v], t);
    forall u ensures Resident(lines', u) <==> u == t || Resident(lines, u) {
      if Resident(lines, u) {
        var p :| 0 <= p < |lines| && Matches(lines[p], u);
        assert Matches(lines'[p], u);
      }
      if Resident(lines', u) && u != t {
        var p :| 0 <= p < |lines| && Matches(lines'[p], u);
        assert Matches(lines[p], u);
      }
    }
  }

  /** In a full set a miss replaces exactly the deepest tag of the stack. */
  lemma EvictImplements(lines: seq<Line>, top: Stack, t: nat, now: int)
    requires Implements(lines, top, now) && now >= 1 && t !in top && |top| == |lines|
    ensures Access(lines, t, now).1 == Evict
    ensures lines[Oldest(lines, |lines|)].tag == top[|top| - 1]
    ensures Implements(Access(lines, t, now).0, TopAfter(top, t, |lines|), now + 1)
  {
    hide Ordered, Stamped, RecencyStack.Distinct, TopAfter;
    AccessBasics(lines, t, now);
    TopAfterFacts(top, t, |lines|);
    var v := Oldest(lines, |lines|);
    OldestIsDeepest(lines, top, now);
    var top' := TopAfter(top, t, |lines|);
    RestampKeepsOrder(lines, top, top', v, t, now);
    EvictResidents(lines, v, t, now);
  }

  lemma EvictResidents(lines: seq<Line>, v: nat, t: nat, now: int)
    requires v < |lines| && lines[v].valid && DistinctTags(lines) && !Resident(lines, t)
    ensures var lines' := lines[v := Line(true, t, now)];
            forall u :: Resident(lines', u) <==> u == t || (Resident(lines, u) && u != lines[v].tag)
  {
    var lines' := lines[v := Line(true, t, now)];
    assert Matches(lines'[v], t) && Matches(lines[v], lines[v].tag);
    forall u ensures Resident(lines', u) <==> u == t || (Resident(lines, u) && u != lines[v].tag) {
      if Resident(lines, u) && u != lines[v].tag {
        var p :| 0 <= p < |lines| && Matches(lines[p], u);
        assert Matches(lines'[p], u);
      }
      if Resident(lines', u) && u != t {
        var p :| 0 <= p < |lines| && Matches(lines'[p], u);
        assert p != v && Matches(lines[p], u);
      }
    }
  }

  lemma OldestIsDeepest(lines: seq<Line>, top: Stack, now: int)
    requires Implements(lines, top, now) && |top| == |lines|
    ensures lines[Oldest(lines, |lines|)].valid
    ensures lines[Oldest(lines, |lines|)].tag == top[|top| - 1]
  {
    CountAll(lines);
    var v := Oldest(lines, |lines|);
    var last := top[|top| - 1];
    assert Resident(lines, last);
    var p :| 0 <= p < |lines| && Matches(lines[p], last);
    assert Matches(lines[v], lines[v].tag);
    assert Resident(lines, lines[v].tag);
    var i: nat :| i < |top| && top[i] == lines[v].tag;
    if i < |top| - 1 {
      AboveLast(top, i);
    }
  }

  lemma AboveLast(top: Stack, i: nat)
    requires i < |top| - 1
    ensures Above(top, top[i], top[|top| - 1])
  {
  }
}
