/** What the stamp 0 of a run's first line costs, against textbook LRU. */
module TextbookLru {
  import opened CacheSet
  import opened RecencyStack
  import opened CacheRun

  /** The misses of textbook LRU, which keeps the E most recently used tags of each set */
  function TextbookMisses(g: Geometry, addrs: seq<nat>): nat {
    if addrs == [] then 0
    else
      var before, a := addrs[..|addrs| - 1], addrs[|addrs| - 1];
      TextbookMisses(g, before)
      + Bit(Tag(g, a) !in Top(Recency(History(g, before, SetIndex(g, a))), g.E))
  }

  function Tags(h: seq<nat>): set<nat> { set t | t in h }

  /** Use j is the first reuse of the first tag; another tag came directly after the first use,
      and fewer than E other tags came in between. */
  predicate MissedAt(h: seq<nat>, E: nat, j: nat) {
    2 <= j < |h| && h[1] != h[0] && h[j] == h[0] && h[0] !in h[1..j] && |Tags(h[1..j])| < E
  }

  predicate MissedReuse(h: seq<nat>, E: nat) {
    exists j :: 0 <= j < |h| && MissedAt(h, E, j)
  }

  lemma {:induction false} DistinctSize(st: Stack)
    requires RecencyStack.Distinct(st)
    ensures |Tags(st)| == |st|
  {
    if st != [] {
      DistinctSize(st[1..]);
      assert Tags(st) == {st[0]} + Tags(st[1..]);
    }
  }

  /** The stack is as high as there are tags in the history. */
  lemma RecencySize(h: seq<nat>)
    ensures |Recency(h)| == |Tags(h)|
  {
    hide Recency, RecencyStack.Distinct;
    RecencyDistinct(h);
    DistinctSize(Recency(h));
    assert Tags(Recency(h)) == Tags(h);
  }

  lemma TopOfLower(st: Stack, u: nat, t: nat, E: nat)
    requires u !in st
    ensures t in Top(st + [u], E) <==> t in Top(st, E) || (t == u && |st| < E)
  {
    if |st| < E {
      assert Top(st + [u], E) == st + [u];
    } else {
      assert (st + [u])[..E] == st[..E];
    }
  }

  /** One access to the set of the run's first access: the simulator misses whatever textbook
      LRU misses, and one thing more exactly at a missed reuse of the first tag. */
  lemma AccessDiffers(h: seq<nat>, t: nat, E: nat)
    requires h != []
    ensures t in Top(Recency(Effective(true, h)), E) ==> t in Top(Recency(h), E)
    ensures t !in Top(Recency(Effective(true, h)), E) && t in Top(Recency(h), E) <==> MissedAt(h + [t], E, |h|)
  {
    hide Recency, Tags, Top;
    var u, rest := h[0], h[1..];
    assert (h + [t])[1..|h|] == rest;
    if FirstReplaced(true, h) {
      assert h == [u] + rest;
      ForgetFirst(u, rest);
      RecencySize(rest);
      RecencyDistinct(rest);
      if u !in rest {
        TopOfLower(Recency(rest), u, t, E);
        TopIsPart(Recency(rest), E);
      }
    }
  }

  lemma TopIsPart(st: Stack, E: nat)
    ensures forall t :: t in Top(st, E) ==> t in st
  {
  }

  /** Nothing can be missed twice: after the reuse the first tag is no longer unused. */
  lemma MissedReuseStep(h: seq<nat>, t: nat, E: nat)
    requires h != []
    ensures MissedReuse(h + [t], E) <==> MissedReuse(h, E) || MissedAt(h + [t], E, |h|)
    ensures !(MissedReuse(h, E) && MissedAt(h + [t], E, |h|))
  {
    var h' := h + [t];
    forall j | 0 <= j < |h|
      ensures MissedAt(h', E, j) == MissedAt(h, E, j)
    {
      if j >= 2 { assert h'[1..j] == h[1..j]; }
    }
    if MissedReuse(h, E) {
      var j :| 0 <= j < |h| && MissedAt(h, E, j);
      assert MissedAt(h', E, j) == MissedAt(h, E, j);
      assert h'[1..|h|][j - 1] == h[0];
    }
  }

  /** Over every trace the simulator misses as often as textbook LRU, or once more: exactly when
      another tag followed the run's first access in its set, and the first tag came back before
      E others had been used. */
  lemma {:induction false} FirstLineCosts(g: Geometry, addrs: seq<nat>)
    requires Sensible(g)
    ensures Run(g, addrs).misses
         == TextbookMisses(g, addrs)
            + Bit(addrs != [] && MissedReuse(History(g, addrs, SetIndex(g, addrs[0])), g.E))
  {
    if addrs != [] {
      var before, a := addrs[..|addrs| - 1], addrs[|addrs| - 1];
      FirstLineCosts(g, before);
      HitIffShallow(g, before, a);
      var i, t := SetIndex(g, a), Tag(g, a);
      var h := History(g, before, i);
      if before == [] {
        assert History(g, addrs, i) == [t];
      } else if SetIndex(g, addrs[0]) == i {
        RunReflects(g, before, i);
        AccessDiffers(h, t, g.E);
        MissedReuseStep(h, t, g.E);
      } else {
        assert History(g, before, SetIndex(g, addrs[0])) + [] == History(g, before, SetIndex(g, addrs[0]));
      }
    }
  }
}
