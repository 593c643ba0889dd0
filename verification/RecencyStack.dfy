/** Textbook LRU: a stack of tags, most recently used first. */
module RecencyStack {

  type Stack = seq<nat>

  function Without(st: Stack, t: nat): (r: Stack)
    ensures |r| <= |st|
  {
    if st == [] then []
    else if st[0] == t then Without(st[1..], t)
    else [st[0]] + Without(st[1..], t)
  }

  /** Using t moves it to the top. */
  function Push(st: Stack, t: nat): Stack {
    [t] + Without(st, t)
  }

  /** The stack after a history of uses, oldest use first. */
  function Recency(history: seq<nat>): Stack {
    if history == [] then []
    else Push(Recency(history[..|history| - 1]), history[|history| - 1])
  }

  /** How many other tags were used since t; the height of the stack if t was never used. */
  function Depth(st: Stack, t: nat): (d: nat)
    ensures d <= |st|
    ensures d < |st| ==> st[d] == t
    ensures forall i :: 0 <= i < d ==> st[i] != t
  {
    if st == [] || st[0] == t then 0 else 1 + Depth(st[1..], t)
  }

  function Top(st: Stack, n: nat): Stack {
    if |st| <= n then st else st[..n]
  }

  ghost predicate Distinct(st: Stack) {
    forall i, j :: 0 <= i < j < |st| ==> st[i] != st[j]
  }

  lemma {:induction false} WithoutFacts(st: Stack, t: nat)
    ensures t !in Without(st, t)
    ensures forall u :: u in Without(st, t) <==> u in st && u != t
    ensures Distinct(st) ==> Distinct(Without(st, t))
  {
    if st != [] {
      var rest := Without(st[1..], t);
      WithoutFacts(st[1..], t);
      assert st == [st[0]] + st[1..];
      if Distinct(st) {
        assert Distinct(st[1..]);
        forall i | 0 <= i < |rest| ensures rest[i] != st[0] {
          assert rest[i] in st[1..];
        }
      }
    }
  }

  lemma {:induction false} WithoutAbsent(st: Stack, t: nat)
    requires t !in st
    ensures Without(st, t) == st
  {
    if st != [] {
      WithoutAbsent(st[1..], t);
    }
  }

  /** Removing the only occurrence of t, at depth d, closes the gap. */
  lemma {:induction false} WithoutAt(st: Stack, t: nat, d: nat)
    requires Distinct(st) && d < |st| && st[d] == t
    ensures Without(st, t) == st[..d] + st[d + 1..]
  {
    if d == 0 {
      WithoutAbsent(st[1..], t);
    } else {
      WithoutAt(st[1..], t, d - 1);
      assert st[1..][..d - 1] == st[1..d] && st[1..][d..] == st[d + 1..];
      assert st[..d] == [st[0]] + st[1..d];
    }
  }

  /** Where pushing a tag of the stack moves the others. */
  lemma PushMoves(st: Stack, t: nat)
    requires Distinct(st) && t in st
    ensures var d := Depth(st, t);
            && |Push(st, t)| == |st| && Push(st, t)[0] == t
            && d < |st| && st[d] == t
            && forall i {:trigger Push(st, t)[i]} :: 1 <= i < |st| ==>
                 Push(st, t)[i] == if i <= d then st[i - 1] else st[i]
  {
    DepthMeansTop(st, t, |st|);
    WithoutAt(st, t, Depth(st, t));
  }

  lemma {:induction false} RecencyDistinct(history: seq<nat>)
    ensures Distinct(Recency(history))
    ensures forall t :: t in Recency(history) <==> t in history
  {
    if history != [] {
      var n := |history| - 1;
      RecencyDistinct(history[..n]);
      WithoutFacts(Recency(history[..n]), history[n]);
      assert history == history[..n] + [history[n]];
    }
  }

  lemma DepthMeansTop(st: Stack, t: nat, n: nat)
    ensures t in Top(st, n) <==> t in st && Depth(st, t) < n
  {
  }

  /** A tag within the top n moves up among them. */
  lemma TopPushHit(st: Stack, t: nat, n: nat)
    requires Distinct(st) && t in Top(st, n)
    ensures Top(Push(st, t), n) == Push(Top(st, n), t)
  {
    var top := Top(st, n);
    DepthMeansTop(st, t, n);
    var d := Depth(st, t);
    WithoutAt(st, t, d);
    WithoutAt(top, t, d);
    if |st| > n {
      assert (st[..d] + st[d + 1..])[..n - 1] == top[..d] + top[d + 1..];
    }
  }

  /** Any other tag comes in on top and, if the top n are all taken, pushes the deepest out. */
  lemma TopPushMiss(st: Stack, t: nat, n: nat)
    requires Distinct(st) && t !in Top(st, n) && n > 0
    ensures Top(Push(st, t), n) == [t] + if |st| < n then st else st[..n - 1]
  {
    DepthMeansTop(st, t, n);
    if t !in st {
      WithoutAbsent(st, t);
    } else {
      var d := Depth(st, t);
      WithoutAt(st, t, d);
      assert (st[..d] + st[d + 1..])[..n - 1] == st[..n - 1];
    }
  }
}
