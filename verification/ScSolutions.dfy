/**
 * The orderings that a trace entails, as clocks: the least ones that respect every rule, and when they are computed.
 */
module ScSolutions {
  import opened GraphTheory
  import opened Clocks
  import opened ScTheory
  import opened ScPasses
  import opened ScFixpoint

  // ----- clocks that respect every rule -----

  /** a follows b: in its thread, at its creation, at a join, or by reading. */
  ghost predicate Follows(tr: ScTrace, b: nat, a: nat) {
    && b < |tr| && a < |tr|
    && ((if tr[a].start then tr[a].creation == Some(b) else Previous(tr, b, a)) || tr[a].join == Some(b)
        || (tr[a].read && tr[a].rf == b))
  }

  /** Another write of what r reads, by neither r's thread nor that of the write it reads. */
  ghost predicate Third(tr: ScTrace, r: nat, w2: nat) {
    && r < |tr| && tr[r].read && tr[r].rf < |tr| && w2 < |tr| && tr[w2].write && tr[w2].loc == tr[r].loc
    && tr[w2].tid != tr[r].tid && tr[w2].tid != tr[tr[r].rf].tid
  }

  /** What is after the write that r reads is after r. */
  ghost predicate AfterRule(tr: ScTrace, c: seq<Clock>, r: nat, w2: nat)
    requires |c| == |tr| && Third(tr, r, w2)
  {
    Since(c[w2], tr[tr[r].rf].tid, tr[r].rf) ==> Leq(c[r], c[w2])
  }

  /** What is before r is before the write that r reads. */
  ghost predicate BeforeRule(tr: ScTrace, c: seq<Clock>, r: nat, w2: nat)
    requires |c| == |tr| && Third(tr, r, w2)
  {
    Since(c[r], tr[w2].tid, w2) ==> Leq(c[w2], c[tr[r].rf])
  }

  ghost predicate IsSolution(tr: ScTrace, c: seq<Clock>) {
    && |c| == |tr|
    && (forall a {:trigger c[a]} :: 0 <= a < |tr| ==> Since(c[a], tr[a].tid, a))
    && (forall b: nat, a: nat {:trigger Follows(tr, b, a)} :: Follows(tr, b, a) ==> Leq(c[b], c[a]))
    && (forall r: nat, w2: nat {:trigger Third(tr, r, w2)} ::
          Third(tr, r, w2) ==> AfterRule(tr, c, r, w2) && BeforeRule(tr, c, r, w2))
  }

  // ----- nothing is computed that is not entailed -----

  /** What has been computed is in c. */
  ghost predicate Within(s: Vectors, c: seq<Clock>) {
    |c| == |s.cvs| && forall a {:trigger s.cvs[a]} :: 0 <= a < |s.cvs| && s.cvs[a].Some? ==> Leq(s.cvs[a].value, c[a])
  }

  /** Clocks of a linear order: an action is not named by one that comes before it. */
  ghost predicate Strict(tr: ScTrace, c: seq<Clock>) {
    |c| == |tr| && forall b: nat, a: nat {:trigger Leq(c[b], c[a])} ::
      b < |tr| && a < |tr| && (b != a || Follows(tr, b, a)) && Leq(c[b], c[a]) ==> !Since(c[b], tr[a].tid, a)
  }

  /** Below such clocks, no cycle is met. */
  ghost predicate Calm(tr: ScTrace, s: Vectors, s': Vectors, c: seq<Clock>) {
    Strict(tr, c) && !s.cyclic ==> !s'.cyclic
  }

  lemma MergeWithin(tr: ScTrace, s: Vectors, a: nat, b: nat, c: seq<Clock>)
    requires a < |s.cvs| == |tr| && b < |tr| && s.cvs[a].Some? && Within(s, c) && Leq(c[b], c[a])
    ensures Within(Merge(tr, s, a, b).0, c) && (b != a || Follows(tr, b, a) ==> Calm(tr, s, Merge(tr, s, a, b).0, c))
  {
    hide Follows;
    if s.cvs[b].Some? && Since(s.cvs[b].value, tr[a].tid, a) {
      SinceWithin(s, c, b, tr[a].tid, a);
    }
    if s.cvs[b].Some? && !Since(s.cvs[b].value, tr[a].tid, a) {
      var x, y := s.cvs[a].value, s.cvs[b].value;
      LeqTrans(y, c[b], c[a]);
      forall t: nat
        ensures At(Join(x, y), t) <= At(c[a], t)
      {
        assert At(x, t) <= At(c[a], t) && At(y, t) <= At(c[a], t);
      }
    }
  }

  lemma SinceWithin(s: Vectors, c: seq<Clock>, a: nat, t: nat, x: nat)
    requires Within(s, c) && a < |s.cvs| && s.cvs[a].Some? && Since(s.cvs[a].value, t, x)
    ensures Since(c[a], t, x)
  {
    assert At(s.cvs[a].value, t) <= At(c[a], t);
  }

  /** The actions of one other thread on what r reads. */
  ghost predicate OfOther(tr: ScTrace, r: nat, l: seq<nat>)
    requires r < |tr| && tr[r].rf < |tr|
  {
    forall k {:trigger l[k]} :: 0 <= k < |l| ==>
      l[k] < |tr| && tr[l[k]].loc == tr[r].loc && tr[l[k]].tid != tr[r].tid && tr[l[k]].tid != tr[tr[r].rf].tid
  }

  lemma {:induction false} ReadBackWithin(tr: ScTrace, s: Vectors, changed: bool, r: nat, l: seq<nat>, k: nat,
                                          c: seq<Clock>)
    requires |s.cvs| == |tr| && r < |tr| && s.cvs[r].Some? && tr[r].read && tr[r].rf < |tr| && k <= |l| && Listed(tr, l)
    requires OfOther(tr, r, l) && IsSolution(tr, c) && Within(s, c)
    ensures Within(ReadBack(tr, s, changed, r, l, k).0, c) && Calm(tr, s, ReadBack(tr, s, changed, r, l, k).0, c)
    decreases k
  {
    hide Merge, Within, IsSolution, Leq, Strict, Follows;
    if k > 0 {
      var w2, w := l[k - 1], tr[r].rf;
      if !tr[w2].write || s.cvs[w2].None? {
        ReadBackWithin(tr, s, changed, r, l, k - 1, c);
      } else {
        assert Third(tr, r, w2);
        RulesOf(tr, c, r, w2);
        var p := if Since(s.cvs[w2].value, tr[w].tid, w) then Merge(tr, s, w2, r) else (s, false);
        MergeSets(tr, s, w2, r);
        if Since(s.cvs[w2].value, tr[w].tid, w) {
          SinceWithin(s, c, w2, tr[w].tid, w);
          MergeWithin(tr, s, w2, r, c);
        }
        if Since(p.0.cvs[r].value, tr[w2].tid, w2) {
          if p.0.cvs[w].Some? {
            SinceWithin(p.0, c, r, tr[w2].tid, w2);
            MergeWithin(tr, p.0, w, w2, c);
          }
        } else {
          ReadBackWithin(tr, p.0, changed || p.1, r, l, k - 1, c);
        }
      }
    }
  }

  lemma RulesOf(tr: ScTrace, c: seq<Clock>, r: nat, w2: nat)
    requires IsSolution(tr, c) && Third(tr, r, w2)
    ensures |c| == |tr| && AfterRule(tr, c, r, w2) && BeforeRule(tr, c, r, w2)
  {
  }

  lemma {:induction false} ReadThreadsWithin(tr: ScTrace, s: Vectors, changed: bool, r: nat, threads: nat, t: nat,
                                             c: seq<Clock>)
    requires |s.cvs| == |tr| && r < |tr| && s.cvs[r].Some? && tr[r].read && tr[r].rf < |tr| && t <= threads
    requires IsSolution(tr, c) && Within(s, c)
    ensures var s' := ReadThreads(tr, s, changed, r, threads, t).0; Within(s', c) && Calm(tr, s, s', c)
    decreases threads - t
  {
    hide ReadBack, Within, IsSolution, Strict;
    if t < threads {
      if t == tr[r].tid || t == tr[tr[r].rf].tid {
        ReadThreadsWithin(tr, s, changed, r, threads, t + 1, c);
      } else {
        var l := OnObject(tr, tr[r].loc, t, |tr|);
        var p := ReadBack(tr, s, changed, r, l, |l|);
        ReadBackSets(tr, s, changed, r, l, |l|);
        ReadBackWithin(tr, s, changed, r, l, |l|, c);
        ReadThreadsWithin(tr, p.0, p.1, r, threads, t + 1, c);
      }
    }
  }

  lemma FollowsOf(tr: ScTrace, c: seq<Clock>, b: nat, a: nat)
    requires IsSolution(tr, c) && Follows(tr, b, a)
    ensures |c| == |tr| && a < |tr| && b < |tr| && Leq(c[b], c[a])
  {
  }

  lemma WithClockWithin(tr: ScTrace, s: Vectors, a: nat, c: seq<Clock>)
    requires a < |s.cvs| == |tr| && IsSolution(tr, c) && Within(s, c)
    ensures Within(WithClock(tr, s, a), c) && WithClock(tr, s, a).cyclic == s.cyclic
  {
    var n := Create([], tr[a].tid, a + 1);
    assert Since(c[a], tr[a].tid, a);
    forall t: nat
      ensures At(n, t) <= At(c[a], t)
    {
      assert At(n, t) == if t == tr[a].tid then a + 1 else At([], t);
    }
  }

  lemma VisitWithin(tr: ScTrace, s: Vectors, changed: bool, a: nat, last: Option<nat>, threads: nat, c: seq<Clock>)
    requires Complete(tr, threads) && a < |s.cvs| == |tr|
             && (last.Some? ==> last.value < |tr| && Follows(tr, last.value, a))
    requires IsSolution(tr, c) && Within(s, c)
    ensures var s' := Visit(tr, s, changed, a, last, threads).0; Within(s', c) && Calm(tr, s, s', c)
  {
    hide Merge, Complete, Within, IsSolution, ReadThreads, Leq, Strict;
    CompleteAt(tr, threads, a);
    var s0 := WithClock(tr, s, a);
    WithClockWithin(tr, s, a, c);
    var s1 := if last.Some? then Merge(tr, s0, a, last.value).0 else s0;
    MergeKeeps(tr, s0, a, last);
    if last.Some? {
      FollowsOf(tr, c, last.value, a);
      MergeWithin(tr, s0, a, last.value, c);
    }
    var s2 := if tr[a].join.Some? then Merge(tr, s1, a, tr[a].join.value).0 else s1;
    MergeKeeps(tr, s1, a, tr[a].join);
    if tr[a].join.Some? {
      FollowsOf(tr, c, tr[a].join.value, a);
      MergeWithin(tr, s1, a, tr[a].join.value, c);
    }
    if tr[a].read {
      var w := tr[a].rf;
      FollowsOf(tr, c, w, a);
      MergeSets(tr, s2, a, w);
      MergeWithin(tr, s2, a, w, c);
      var p := Merge(tr, s2, a, w);
      ReadThreadsWithin(tr, p.0, p.1 && a < w, a, threads, 0, c);
    }
  }

  /** Starts come first in their threads. */
  ghost predicate Started(tr: ScTrace) {
    forall b, a {:trigger tr[b], tr[a]} :: 0 <= b < a < |tr| && tr[a].start ==> tr[b].tid != tr[a].tid
  }

  lemma LastFollows(tr: ScTrace, last: map<nat, nat>, a: nat)
    requires a < |tr| && Latest(tr, last, a) && LastAct(tr, last, a).Some? && LastAct(tr, last, a).value < |tr|
    ensures Follows(tr, LastAct(tr, last, a).value, a)
  {
    if !tr[a].start {
      var b := last[tr[a].tid];
      forall x | b < x < a
        ensures tr[x].tid != tr[a].tid
      {
      }
    }
  }

  lemma {:induction false} PassWithin(tr: ScTrace, s: Vectors, changed: bool, a: nat,
                                      last: map<nat, nat>, threads: nat, c: seq<Clock>)
    requires Complete(tr, threads) && a <= |s.cvs| == |tr| && LastOk(tr, last) && Latest(tr, last, a)
    requires IsSolution(tr, c) && Within(s, c)
    ensures var s' := Pass(tr, s, changed, a, last, threads).0; Within(s', c) && Calm(tr, s, s', c)
    decreases |tr| - a
  {
    hide Visit, Complete, Within, IsSolution, Latest, Follows, Strict;
    if a < |tr| {
      CompleteAt(tr, threads, a);
      var l := LastAct(tr, last, a);
      if l.Some? {
        LastFollows(tr, last, a);
      }
      VisitWithin(tr, s, changed, a, l, threads, c);
      var p := Visit(tr, s, changed, a, l, threads);
      LatestNext(tr, last, a);
      PassWithin(tr, p.0, p.1, a + 1, last[tr[a].tid := a], threads, c);
    }
  }

  /**
   * Computed clocks are below all clocks that respect the rules: nothing is ordered that the trace does not entail.
   * If those are the clocks of a linear order, no cycle is met.
   */
  lemma {:induction false} ComputedWithin(tr: ScTrace, s: Vectors, first: bool, threads: nat, c: seq<Clock>)
    requires Complete(tr, threads) && |s.cvs| == |tr| && Bounded(s, threads) && (!first ==> AllSet(s))
    requires IsSolution(tr, c) && Within(s, c)
    ensures Within(Computed(tr, s, first, threads), c) && Calm(tr, s, Computed(tr, s, first, threads), c)
    decreases first, Slack(s.cvs, |tr|, threads)
  {
    hide Pass, Moved, Slack, Complete, Within, IsSolution, Bounded, Strict;
    var p := Pass(tr, s, first, 0, map[], threads);
    PassGrows(tr, s, first, threads);
    PassWithin(tr, s, first, 0, map[], threads, c);
    if p.1 {
      ComputedWithin(tr, p.0, false, threads, c);
    }
  }
}
