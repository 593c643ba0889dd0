/** The sampler of ASSN6/fcyc.c: it keeps the kbest smallest samples, sorted, as they come in. */
module KBest {

  predicate Sorted(s: seq<real>) {
    forall i, j :: 0 <= i < j < |s| ==> s[i] <= s[j]
  }

  /** v put into a sorted sequence, behind everything that is not larger */
  function Insert(s: seq<real>, v: real): (r: seq<real>)
    ensures |r| == |s| + 1
  {
    if s == [] || s[|s| - 1] <= v then s + [v]
    else Insert(s[..|s| - 1], v) + [s[|s| - 1]]
  }

  function Sort(s: seq<real>): (r: seq<real>)
    ensures |r| == |s|
  {
    if s == [] then [] else Insert(Sort(s[..|s| - 1]), s[|s| - 1])
  }

  function Min(a: nat, b: nat): nat {
    if a < b then a else b
  }

  lemma SortedAppend(s: seq<real>, x: real)
    requires Sorted(s) && forall y :: y in s ==> y <= x
    ensures Sorted(s + [x])
  {
    assert forall i :: 0 <= i < |s| ==> s[i] in s;
  }

  lemma SortedFront(s: seq<real>, k: nat)
    requires Sorted(s) && k <= |s|
    ensures Sorted(s[..k])
    ensures forall x, y :: x in s[..k] && y in s[k..] ==> x <= y
  {
  }

  lemma {:induction false} InsertIsSorted(s: seq<real>, v: real)
    requires Sorted(s)
    ensures Sorted(Insert(s, v)) && multiset(Insert(s, v)) == multiset(s) + multiset{v}
  {
    hide Sorted;
    if s != [] {
      var n := |s| - 1;
      var front, last := s[..n], s[n];
      SortedFront(s, n);
      assert s == front + [last] && s[n..] == [last] && last in s[n..];
      if last <= v {
        forall y | y in s
          ensures y <= v
        {
          assert y in front || y == last;
        }
        SortedAppend(s, v);
      } else {
        InsertIsSorted(front, v);
        forall y | y in Insert(front, v)
          ensures y <= last
        {
          assert y in multiset(front) + multiset{v};
        }
        SortedAppend(Insert(front, v), last);
      }
    } else {
      SortedAppend(s, v);
    }
  }

  lemma SortAppend(s: seq<real>, v: real)
    ensures Sort(s + [v]) == Insert(Sort(s), v)
  {
  }

  /** Sort means what it says: a sorted arrangement of the same samples. */
  lemma {:induction false} SortIsSorted(s: seq<real>)
    ensures Sorted(Sort(s)) && multiset(Sort(s)) == multiset(s)
  {
    if s != [] {
      SortIsSorted(s[..|s| - 1]);
      InsertIsSorted(Sort(s[..|s| - 1]), s[|s| - 1]);
      assert s == s[..|s| - 1] + [s[|s| - 1]];
    }
  }

  /** The first k of the sorted samples are the k smallest: what is left over is not smaller. */
  lemma FrontIsSmallest(s: seq<real>, k: nat)
    requires k <= |s|
    ensures multiset(Sort(s)[..k]) <= multiset(s)
    ensures forall x, y :: x in Sort(s)[..k] && y in multiset(s) - multiset(Sort(s)[..k]) ==> x <= y
  {
    hide Sorted, Sort;
    SortIsSorted(s);
    var t := Sort(s);
    SortedFront(t, k);
    assert t == t[..k] + t[k..];
    assert multiset(t) == multiset(t[..k]) + multiset(t[k..]);
    assert multiset(s) - multiset(t[..k]) == multiset(t[k..]);
    forall x, y | x in t[..k] && y in multiset(s) - multiset(t[..k])
      ensures x <= y
    {
      assert y in t[k..];
    }
  }

  /** The first of the sorted samples is the minimum. */
  lemma FirstIsMinimum(s: seq<real>)
    requires s != []
    ensures Sort(s)[0] in s && forall x :: x in s ==> Sort(s)[0] <= x
  {
    SortIsSorted(s);
    assert Sort(s)[0] in multiset(s);
    forall x | x in s
      ensures Sort(s)[0] <= x
    {
      assert x in multiset(Sort(s));
    }
  }

  /** A sample that is not smaller than the k smallest so far does not change them; one that is
      pushes out the largest of them. */
  lemma {:induction false} InsertFront(t: seq<real>, v: real, k: nat)
    requires Sorted(t) && 0 < k <= |t|
    ensures Insert(t, v)[..k] == if v < t[k - 1] then Insert(t[..k - 1], v) else t[..k]
  {
    if t[|t| - 1] <= v {
      assert (t + [v])[..k] == t[..k];
    } else {
      var front := t[..|t| - 1];
      if k == |t| {
        assert Insert(t, v)[..k] == Insert(front, v);
      } else {
        InsertFront(front, v, k);
        assert Insert(t, v)[..k] == Insert(front, v)[..k];
        assert front[..k - 1] == t[..k - 1] && front[..k] == t[..k];
      }
    }
  }

  class Sampler {
    const kbest: nat
    const epsilon: real
    var values: array<real>
    var samplecount: nat
    ghost var samples: seq<real>

    /** The array holds the smallest samples seen, in order. */
    ghost predicate Valid()
      reads this, values
    {
      && 1 <= kbest == values.Length
      && samplecount == |samples|
      && values[..Min(samplecount, kbest)] == Sort(samples)[..Min(samplecount, kbest)]
    }

    /** `init_sampler`; with kbest 0 the first sample would be compared with values[-1]. */
    constructor (kbest: nat, epsilon: real)
      requires kbest >= 1
      ensures Valid() && samples == [] && this.kbest == kbest && this.epsilon == epsilon
      ensures fresh(values)
    {
      this.kbest := kbest;
      this.epsilon := epsilon;
      values := new real[kbest](_ => 0.0);
      samplecount := 0;
      samples := [];
    }

    method InitSampler()
      requires Valid()
      modifies this
      ensures Valid() && samples == [] && fresh(values)
    {
      values := new real[kbest](_ => 0.0);
      samplecount := 0;
      samples := [];
    }

    /** Moves the value at pos down to its place among the sorted ones before it. */
    method Sink(start: nat, ghost front: seq<real>)
      requires start < values.Length && values[..start] == front
      modifies values
      ensures values[..start + 1] == Insert(front, old(values[start]))
      ensures values[start + 1..] == old(values[start + 1..])
    {
      var pos := start;
      ghost var v := values[start];
      assert front[..start] == front;
      while pos > 0 && values[pos - 1] > values[pos]
        invariant 0 <= pos <= start && values[pos] == v
        invariant values[..pos] == front[..pos]
        invariant values[pos + 1..start + 1] == front[pos..]
        invariant Insert(front, v) == Insert(front[..pos], v) + front[pos..]
        invariant values[start + 1..] == old(values[start + 1..])
      {
        InsertStep(front, v, pos);
        values[pos - 1], values[pos] := values[pos], values[pos - 1];
        pos := pos - 1;
      }
      assert pos > 0 ==> front[..pos][pos - 1] == values[pos - 1];
      assert values[..start + 1] == front[..pos] + [v] + front[pos..];
    }

    /** `add_sample` */
    method AddSample(val: real)
      requires Valid()
      modifies this, values
      ensures Valid() && samples == old(samples) + [val] && values == old(values)
    {
      hide Sort, Insert, Sorted;
      var pos := 0;
      ghost var t := Sort(samples);
      SortIsSorted(samples);
      SortAppend(samples, val);
      if samplecount < kbest {
        pos := samplecount;
        values[pos] := val;
        assert t[..samplecount] == t;
        Sink(pos, t);
      } else if val < values[kbest - 1] {
        pos := kbest - 1;
        InsertFront(t, val, kbest);
        assert values[..kbest][..kbest - 1] == t[..kbest - 1];
        values[pos] := val;
        Sink(pos, t[..kbest - 1]);
      } else {
        InsertFront(t, val, kbest);
      }
      samplecount := samplecount + 1;
      samples := samples + [val];
    }

    /** `has_converged`: enough samples, and the kbest smallest lie within epsilon of the
        minimum */
    method HasConverged() returns (r: bool)
      requires Valid()
      ensures r <==> |samples| >= kbest && (1.0 + epsilon) * Sort(samples)[0] >= Sort(samples)[kbest - 1]
      ensures r ==> forall i :: 0 <= i < kbest ==>
        Sort(samples)[0] <= Sort(samples)[i] <= (1.0 + epsilon) * Sort(samples)[0]
    {
      hide Sort;
      SortIsSorted(samples);
      if samplecount < kbest {
        return false;
      }
      assert forall i :: 0 <= i < kbest ==> values[..kbest][i] == Sort(samples)[i];
      assert values[..kbest][0] == values[0] && values[..kbest][kbest - 1] == values[kbest - 1];
      var bound := (1.0 + epsilon) * values[0];
      r := bound >= values[kbest - 1];
    }
  }

  lemma InsertStep(front: seq<real>, v: real, pos: nat)
    requires 0 < pos <= |front| && front[pos - 1] > v
    ensures Insert(front[..pos], v) + front[pos..] == Insert(front[..pos - 1], v) + front[pos - 1..]
  {
    assert front[..pos][..pos - 1] == front[..pos - 1];
    assert front[pos - 1..] == [front[pos - 1]] + front[pos..];
  }
}
