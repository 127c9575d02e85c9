/** What holds of the clocks when the passes stop: which orderings are in, and what may be missing. */
module ScFixpoint {
  import opened GraphTheory
  import opened Clocks
  import opened ScTheory
  import opened ScPasses
  import opened ScChoices
  import opened ScGeneration

  // ----- a pass without a counted change -----

  /** Nothing grew. */
  ghost predicate Still(s: Vectors, s': Vectors) {
    && AllSet(s) && AllSet(s') && |s'.cvs| == |s.cvs| && (s.cyclic ==> s'.cyclic)
    && forall x {:trigger s'.cvs[x]} {:trigger s.cvs[x]} :: 0 <= x < |s.cvs| ==> Even(s.cvs[x].value, s'.cvs[x].value)
  }

  /** The same entries. */
  ghost predicate Even(c: Clock, d: Clock) {
    forall t: nat {:trigger At(c, t)} {:trigger At(d, t)} :: At(c, t) == At(d, t)
  }

  lemma StillTrans(s: Vectors, t: Vectors, u: Vectors)
    requires Still(s, t) && Still(t, u)
    ensures Still(s, u)
  {
    forall x | 0 <= x < |s.cvs|
      ensures Even(s.cvs[x].value, u.cvs[x].value)
    {
      var c, d, e := s.cvs[x].value, t.cvs[x].value, u.cvs[x].value;
      forall k: nat
        ensures At(c, k) == At(e, k)
      {
        assert At(c, k) == At(d, k) && At(d, k) == At(e, k);
      }
    }
  }

  lemma MergeStill(tr: ScTrace, s: Vectors, act: nat, act2: nat)
    requires act < |s.cvs| == |tr| && act2 < |tr| && AllSet(s) && !Merge(tr, s, act, act2).1
    ensures Still(s, Merge(tr, s, act, act2).0)
  {
    var r := Merge(tr, s, act, act2).0;
    var c, d := s.cvs[act].value, s.cvs[act2].value;
    if !Since(d, tr[act].tid, act) {
      ExceedsAt(d, c);
      assert r.cvs[act] == Some(Join(c, d));
    }
  }

  lemma {:induction false} ReadBackStill(tr: ScTrace, s: Vectors, changed: bool, r: nat, l: seq<nat>, k: nat)
    requires |s.cvs| == |tr| && r < |tr| && tr[r].rf < |tr| && k <= |l| && Listed(tr, l) && AllSet(s)
             && !ReadBack(tr, s, changed, r, l, k).1
    ensures !changed && Still(s, ReadBack(tr, s, changed, r, l, k).0)
    decreases k
  {
    hide Merge;
    if k > 0 {
      var w2, w := l[k - 1], tr[r].rf;
      if !tr[w2].write {
        ReadBackStill(tr, s, changed, r, l, k - 1);
      } else {
        var p := if Since(s.cvs[w2].value, tr[w].tid, w) then Merge(tr, s, w2, r) else (s, false);
        MergeSets(tr, s, w2, r);
        if Since(p.0.cvs[r].value, tr[w2].tid, w2) {
          MergeSets(tr, p.0, w, w2);
          MergeStill(tr, p.0, w, w2);
        } else {
          ReadBackStill(tr, p.0, changed || p.1, r, l, k - 1);
        }
        if Since(s.cvs[w2].value, tr[w].tid, w) {
          MergeStill(tr, s, w2, r);
        }
        StillTrans(s, p.0, ReadBack(tr, s, changed, r, l, k).0);
      }
    }
  }

  lemma {:induction false} ReadThreadsStill(tr: ScTrace, s: Vectors, changed: bool, r: nat, threads: nat, t: nat)
    requires |s.cvs| == |tr| && r < |tr| && tr[r].rf < |tr| && t <= threads && AllSet(s)
             && !ReadThreads(tr, s, changed, r, threads, t).1
    ensures !changed && Still(s, ReadThreads(tr, s, changed, r, threads, t).0)
    decreases threads - t
  {
    hide ReadBack;
    if t < threads {
      if t == tr[r].tid || t == tr[tr[r].rf].tid {
        ReadThreadsStill(tr, s, changed, r, threads, t + 1);
      } else {
        var l := OnObject(tr, tr[r].loc, t, |tr|);
        var p := ReadBack(tr, s, changed, r, l, |l|);
        ReadBackSets(tr, s, changed, r, l, |l|);
        ReadThreadsStill(tr, p.0, p.1, r, threads, t + 1);
        ReadBackStill(tr, s, changed, r, l, |l|);
        StillTrans(s, p.0, ReadThreads(tr, p.0, p.1, r, threads, t + 1).0);
      }
    }
  }

  // ----- orderings that are in the clocks -----

  /** The clock of a takes in that of b; unless b already comes after a, and that cycle was met. */
  ghost predicate Under(tr: ScTrace, s: Vectors, b: nat, a: nat)
    requires a < |tr| == |s.cvs| && b < |tr| && AllSet(s)
  {
    Leq(s.cvs[b].value, s.cvs[a].value) || (s.cyclic && Since(s.cvs[b].value, tr[a].tid, a))
  }

  lemma MergeUnder(tr: ScTrace, s: Vectors, a: nat, b: nat)
    requires a < |s.cvs| == |tr| && b < |tr| && AllSet(s)
    ensures var s' := Merge(tr, s, a, b).0; AllSet(s') && |s'.cvs| == |tr| && OnlyAt(s, s', a) && Under(tr, s', b, a)
  {
    var s' := Merge(tr, s, a, b).0;
    var c, d := s.cvs[a].value, s.cvs[b].value;
    if !Since(d, tr[a].tid, a) {
      assert s'.cvs[a] == Some(Join(c, d));
    }
  }

  /** Only the clock of a may have grown. */
  ghost predicate OnlyAt(s: Vectors, s': Vectors, a: nat) {
    && AllSet(s) && AllSet(s') && |s'.cvs| == |s.cvs| && (s.cyclic ==> s'.cyclic)
    && (forall x {:trigger s'.cvs[x]} {:trigger s.cvs[x]} :: 0 <= x < |s.cvs| ==>
      (x != a ==> Even(s.cvs[x].value, s'.cvs[x].value)) && Leq(s.cvs[x].value, s'.cvs[x].value))
  }

  lemma StillOnly(s: Vectors, s': Vectors, a: nat)
    requires Still(s, s')
    ensures OnlyAt(s, s', a)
  {
    forall x | 0 <= x < |s.cvs|
      ensures Even(s.cvs[x].value, s'.cvs[x].value) && Leq(s.cvs[x].value, s'.cvs[x].value)
    {
    }
  }

  lemma EvenTrans(c: Clock, d: Clock, e: Clock)
    requires Even(c, d) && Even(d, e)
    ensures Even(c, e)
  {
    forall k: nat
      ensures At(c, k) == At(e, k)
    {
      assert At(c, k) == At(d, k) && At(d, k) == At(e, k);
    }
  }

  lemma LeqTrans(c: Clock, d: Clock, e: Clock)
    requires Leq(c, d) && Leq(d, e)
    ensures Leq(c, e)
  {
    forall k: nat
      ensures At(c, k) <= At(e, k)
    {
      assert At(c, k) <= At(d, k) && At(d, k) <= At(e, k);
    }
  }

  lemma OnlyTrans(s: Vectors, t: Vectors, u: Vectors, a: nat)
    requires OnlyAt(s, t, a) && OnlyAt(t, u, a)
    ensures OnlyAt(s, u, a)
  {
    hide Even, Leq;
    forall x | 0 <= x < |s.cvs|
      ensures (x != a ==> Even(s.cvs[x].value, u.cvs[x].value)) && Leq(s.cvs[x].value, u.cvs[x].value)
    {
      LeqTrans(s.cvs[x].value, t.cvs[x].value, u.cvs[x].value);
      if x != a {
        EvenTrans(s.cvs[x].value, t.cvs[x].value, u.cvs[x].value);
      }
    }
  }

  /** An ordering stays in when the earlier clock stays and the later one grows. */
  lemma UnderKept(tr: ScTrace, s: Vectors, s': Vectors, b: nat, a: nat, y: nat)
    requires a < |tr| == |s.cvs| && b < |tr| && OnlyAt(s, s', y) && (b != y || b == a) && Under(tr, s, b, a)
    ensures Under(tr, s', b, a)
  {
    var c, d, c', d' := s.cvs[b].value, s.cvs[a].value, s'.cvs[b].value, s'.cvs[a].value;
    if b == a {
      assert Leq(c', d');
    } else {
      assert Even(c, c') && Leq(d, d');
      if Leq(c, d) {
        forall k: nat
          ensures At(c', k) <= At(d', k)
        {
          assert At(c', k) == At(c, k) && At(c, k) <= At(d, k) && At(d, k) <= At(d', k);
        }
      } else {
        assert At(c', tr[a].tid) == At(c, tr[a].tid);
      }
    }
  }

  /** One action of a pass that counts no change: only its own clock grows, and what it follows is in. */
  lemma VisitOnly(tr: ScTrace, s: Vectors, changed: bool, a: nat, last: Option<nat>, threads: nat)
    requires Complete(tr, threads) && a < |s.cvs| == |tr| && (last.Some? ==> last.value < |tr|) && AllSet(s)
    requires !Visit(tr, s, changed, a, last, threads).1
    ensures var s' := Visit(tr, s, changed, a, last, threads).0;
            && !changed && OnlyAt(s, s', a)
            && (last.Some? ==> Under(tr, s', last.value, a))
            && (tr[a].join.Some? ==> tr[a].join.value < |tr| && Under(tr, s', tr[a].join.value, a))
            && (tr[a].read ==> tr[a].rf < |tr| && Under(tr, s', tr[a].rf, a))
  {
    hide Merge, Complete, Under, OnlyAt, ProcessRead;
    CompleteAt(tr, threads, a);
    var s1 := if last.Some? then Merge(tr, s, a, last.value).0 else s;
    MergeKeeps(tr, s, a, last);
    OnlyRefl(s, a);
    if last.Some? {
      MergeUnder(tr, s, a, last.value);
    }
    var s2 := if tr[a].join.Some? then Merge(tr, s1, a, tr[a].join.value).0 else s1;
    MergeKeeps(tr, s1, a, tr[a].join);
    OnlyRefl(s1, a);
    if tr[a].join.Some? {
      MergeUnder(tr, s1, a, tr[a].join.value);
    }
    OnlyTrans(s, s1, s2, a);
    var s3 := if tr[a].read then ProcessRead(tr, s2, a, threads).0 else s2;
    OnlyRefl(s2, a);
    if tr[a].read {
      ReadOnly(tr, s2, a, threads);
    }
    OnlyTrans(s, s2, s3, a);
    if last.Some? {
      UnderKept(tr, s1, s2, last.value, a, a);
      UnderKept(tr, s2, s3, last.value, a, a);
    }
    if tr[a].join.Some? {
      UnderKept(tr, s2, s3, tr[a].join.value, a, a);
    }
  }

  lemma OnlyRefl(s: Vectors, a: nat)
    requires AllSet(s)
    ensures OnlyAt(s, s, a)
  {
  }

  lemma ReadOnly(tr: ScTrace, s: Vectors, r: nat, threads: nat)
    requires |s.cvs| == |tr| && r < |tr| && tr[r].rf < |tr| && AllSet(s) && !ProcessRead(tr, s, r, threads).1
    ensures OnlyAt(s, ProcessRead(tr, s, r, threads).0, r) && Under(tr, ProcessRead(tr, s, r, threads).0, tr[r].rf, r)
  {
    hide ReadThreads, Merge, Under, OnlyAt;
    var p := Merge(tr, s, r, tr[r].rf);
    MergeSets(tr, s, r, tr[r].rf);
    MergeUnder(tr, s, r, tr[r].rf);
    ReadThreadsStill(tr, p.0, p.1 && r < tr[r].rf, r, threads, 0);
    var s' := ReadThreads(tr, p.0, p.1 && r < tr[r].rf, r, threads, 0).0;
    StillOnly(p.0, s', r);
    OnlyTrans(s, p.0, s', r);
    StillUnder(tr, p.0, s', tr[r].rf, r);
  }

  lemma StillUnder(tr: ScTrace, s: Vectors, s': Vectors, b: nat, a: nat)
    requires a < |tr| == |s.cvs| && b < |tr| && Still(s, s') && Under(tr, s, b, a)
    ensures Under(tr, s', b, a)
  {
    var y := |tr|;
    StillOnly(s, s', y);
    UnderKept(tr, s, s', b, a, y);
  }
  // ----- the orderings of the program and of what is read -----

  /** The latest earlier action of the same thread. */
  ghost predicate Previous(tr: ScTrace, b: nat, a: nat) {
    b < a < |tr| && tr[b].tid == tr[a].tid && forall x {:trigger tr[x]} :: b < x < a ==> tr[x].tid != tr[a].tid
  }

  /** An earlier action that a directly follows: in its thread, at its creation, at a join, or by reading. */
  ghost predicate Direct(tr: ScTrace, b: nat, a: nat) {
    && b < a < |tr|
    && ((if tr[a].start then tr[a].creation == Some(b) else Previous(tr, b, a)) || tr[a].join == Some(b)
        || (tr[a].read && tr[a].rf == b))
  }

  /** The orderings of the first n actions are in. */
  ghost predicate Closed(tr: ScTrace, s: Vectors, n: nat) {
    && |s.cvs| == |tr| && AllSet(s)
    && forall b, a {:trigger Direct(tr, b, a)} :: 0 <= b < a < n && a < |tr| && Direct(tr, b, a) ==> Under(tr, s, b, a)
  }

  /** The record of each thread's latest action. */
  ghost predicate Latest(tr: ScTrace, last: map<nat, nat>, n: nat) {
    && (forall t {:trigger last[t]} :: t in last ==> last[t] < n && last[t] < |tr| && tr[last[t]].tid == t)
    && forall b: nat {:trigger tr[b]} :: b < n && b < |tr| ==> tr[b].tid in last && b <= last[tr[b].tid]
  }

  lemma LatestNext(tr: ScTrace, last: map<nat, nat>, a: nat)
    requires a < |tr| && Latest(tr, last, a)
    ensures Latest(tr, last[tr[a].tid := a], a + 1)
  {
  }

  /** What a directly follows is what its visit merges. */
  lemma DirectMerged(tr: ScTrace, last: map<nat, nat>, b: nat, a: nat)
    requires Latest(tr, last, a) && Direct(tr, b, a)
    ensures LastAct(tr, last, a) == Some(b) || tr[a].join == Some(b) || (tr[a].read && tr[a].rf == b)
  {
    if !tr[a].start && Previous(tr, b, a) {
      var m := last[tr[b].tid];
      assert b <= m < a && tr[m].tid == tr[a].tid;
    }
  }

  lemma VisitCloses(tr: ScTrace, s: Vectors, a: nat, last: map<nat, nat>, threads: nat)
    requires Complete(tr, threads) && a < |s.cvs| == |tr| && Latest(tr, last, a) && LastOk(tr, last) && Closed(tr, s, a)
    requires !Visit(tr, s, false, a, LastAct(tr, last, a), threads).1
    ensures Closed(tr, Visit(tr, s, false, a, LastAct(tr, last, a), threads).0, a + 1)
  {
    hide Visit, Complete, Under, OnlyAt, Direct;
    CompleteAt(tr, threads, a);
    var l := LastAct(tr, last, a);
    VisitOnly(tr, s, false, a, l, threads);
    var s' := Visit(tr, s, false, a, l, threads).0;
    OnlySet(s, s', a);
    forall b, x | 0 <= b < x < a + 1 && Direct(tr, b, x)
      ensures Under(tr, s', b, x)
    {
      if x == a {
        DirectMerged(tr, last, b, a);
      } else {
        UnderKept(tr, s, s', b, x, a);
      }
    }
  }

  lemma OnlySet(s: Vectors, s': Vectors, a: nat)
    requires OnlyAt(s, s', a)
    ensures AllSet(s') && |s'.cvs| == |s.cvs|
  {
  }

  lemma {:induction false} PassCloses(tr: ScTrace, s: Vectors, a: nat, last: map<nat, nat>, threads: nat)
    requires Complete(tr, threads) && a <= |s.cvs| == |tr| && Latest(tr, last, a) && LastOk(tr, last)
             && Closed(tr, s, a)
    requires !Pass(tr, s, false, a, last, threads).1
    ensures Closed(tr, Pass(tr, s, false, a, last, threads).0, |tr|)
    decreases |tr| - a
  {
    hide Visit, Complete, Closed, Latest;
    if a < |tr| {
      CompleteAt(tr, threads, a);
      var p := Visit(tr, s, false, a, LastAct(tr, last, a), threads);
      LatestNext(tr, last, a);
      ClosedSet(tr, s, a);
      if p.1 {
        PassSticky(tr, p.0, a + 1, last[tr[a].tid := a], threads);
      }
      VisitCloses(tr, s, a, last, threads);
      PassCloses(tr, p.0, a + 1, last[tr[a].tid := a], threads);
    }
  }

  lemma ClosedSet(tr: ScTrace, s: Vectors, n: nat)
    requires Closed(tr, s, n)
    ensures AllSet(s) && |s.cvs| == |tr|
  {
  }

  /** A change that was counted stays counted. */
  lemma {:induction false} PassSticky(tr: ScTrace, s: Vectors, a: nat, last: map<nat, nat>, threads: nat)
    requires Complete(tr, threads) && a <= |s.cvs| == |tr| && LastOk(tr, last)
    ensures Pass(tr, s, true, a, last, threads).1
    decreases |tr| - a
  {
    hide ProcessRead, Merge, Complete;
    if a < |tr| {
      CompleteAt(tr, threads, a);
      var p := Visit(tr, s, true, a, LastAct(tr, last, a), threads);
      PassSticky(tr, p.0, a + 1, last[tr[a].tid := a], threads);
    }
  }

  /** When the passes stop, program order, creation, join and reading of earlier writes are in the clocks. */
  lemma {:induction false} ComputedCloses(tr: ScTrace, s: Vectors, first: bool, threads: nat)
    requires Complete(tr, threads) && |s.cvs| == |tr| && Bounded(s, threads) && (!first ==> AllSet(s))
    ensures Closed(tr, Computed(tr, s, first, threads), |tr|)
    decreases first, Slack(s.cvs, |tr|, threads)
  {
    hide Pass, Moved, Slack, Complete, Closed, Bounded;
    var p := Pass(tr, s, first, 0, map[], threads);
    PassGrows(tr, s, first, threads);
    if p.1 {
      ComputedCloses(tr, p.0, false, threads);
    } else {
      if first {
        PassSticky(tr, s, 0, map[], threads);
      }
      NothingYet(tr, s);
      PassCloses(tr, s, 0, map[], threads);
    }
  }

  lemma NothingYet(tr: ScTrace, s: Vectors)
    requires |s.cvs| == |tr| && AllSet(s)
    ensures Closed(tr, s, 0) && Latest(tr, map[], 0)
  {
  }

  // ----- orderings of a run -----

  /** Every clock has its own action's number. */
  ghost predicate Own(tr: ScTrace, s: Vectors) {
    |s.cvs| == |tr|
      && forall a {:trigger s.cvs[a]} :: 0 <= a < |tr| && s.cvs[a].Some? ==> Since(s.cvs[a].value, tr[a].tid, a)
  }

  /** A path of direct orderings. */
  ghost predicate Path(tr: ScTrace, p: seq<nat>) {
    && p != [] && (forall i {:trigger p[i]} :: 0 <= i < |p| ==> p[i] < |tr|)
    && forall i: nat {:trigger Link(tr, p, i)} :: i < |p| - 1 ==> Link(tr, p, i)
  }

  ghost predicate Link(tr: ScTrace, p: seq<nat>, i: nat) {
    i < |p| - 1 && Direct(tr, p[i], p[i + 1])
  }

  /** Without a cycle, the clock at the end of a path takes in that at its start. */
  lemma {:induction false} PathLeq(tr: ScTrace, s: Vectors, p: seq<nat>)
    requires Closed(tr, s, |tr|) && !s.cyclic && Path(tr, p)
    ensures p[0] <= p[|p| - 1] && Leq(s.cvs[p[0]].value, s.cvs[p[|p| - 1]].value)
    decreases |p|
  {
    hide Direct;
    var m := |p| - 1;
    if m > 0 {
      var q := p[..m];
      forall i: nat | i < |q| - 1
        ensures Link(tr, q, i)
      {
        assert Link(tr, p, i);
      }
      PathLeq(tr, s, q);
      var b, a := p[m - 1], p[m];
      assert Link(tr, p, m - 1);
      DirectEarlier(tr, b, a);
      assert Under(tr, s, b, a);
      LeqTrans(s.cvs[p[0]].value, s.cvs[b].value, s.cvs[a].value);
    }
  }

  lemma DirectEarlier(tr: ScTrace, b: nat, a: nat)
    requires Direct(tr, b, a)
    ensures b < a
  {
  }
  lemma OwnKept(tr: ScTrace, s: Vectors, s': Vectors)
    requires Own(tr, s) && Grew(s, s') && SameSet(s, s')
    ensures Own(tr, s')
  {
    forall a | 0 <= a < |tr| && s'.cvs[a].Some?
      ensures Since(s'.cvs[a].value, tr[a].tid, a)
    {
      assert s.cvs[a].Some?;
      assert At(s.cvs[a].value, tr[a].tid) <= At(s'.cvs[a].value, tr[a].tid);
    }
  }

  lemma VisitOwn(tr: ScTrace, s: Vectors, changed: bool, a: nat, last: Option<nat>, threads: nat)
    requires Complete(tr, threads) && a < |s.cvs| == |tr| && (last.Some? ==> last.value < |tr|) && Own(tr, s)
    ensures Own(tr, Visit(tr, s, changed, a, last, threads).0)
  {
    var s0 := WithClock(tr, s, a);
    assert Own(tr, s0);
    NoStep(s0, threads);
    VisitStep(tr, s0, false, a, last, threads, s0);
    assert Visit(tr, s, changed, a, last, threads).0 == Visit(tr, s0, false, a, last, threads).0;
    OwnKept(tr, s0, Visit(tr, s0, false, a, last, threads).0);
  }

  lemma {:induction false} PassOwn(tr: ScTrace, s: Vectors, changed: bool, a: nat, last: map<nat, nat>, threads: nat)
    requires Complete(tr, threads) && a <= |s.cvs| == |tr| && LastOk(tr, last) && Own(tr, s)
    ensures Own(tr, Pass(tr, s, changed, a, last, threads).0)
    decreases |tr| - a
  {
    hide Visit, Complete, Own;
    if a < |tr| {
      CompleteAt(tr, threads, a);
      var p := Visit(tr, s, changed, a, LastAct(tr, last, a), threads);
      VisitOwn(tr, s, changed, a, LastAct(tr, last, a), threads);
      PassOwn(tr, p.0, p.1, a + 1, last[tr[a].tid := a], threads);
    }
  }

  lemma {:induction false} ComputedOwn(tr: ScTrace, s: Vectors, first: bool, threads: nat)
    requires Complete(tr, threads) && |s.cvs| == |tr| && Bounded(s, threads) && (!first ==> AllSet(s)) && Own(tr, s)
    ensures Own(tr, Computed(tr, s, first, threads))
    decreases first, Slack(s.cvs, |tr|, threads)
  {
    hide Pass, Moved, Slack, Complete, Own, Bounded;
    var p := Pass(tr, s, first, 0, map[], threads);
    PassGrows(tr, s, first, threads);
    PassOwn(tr, s, first, 0, map[], threads);
    if p.1 {
      ComputedOwn(tr, p.0, false, threads);
    }
  }

  /** What every state of a run has in its clocks. */
  ghost predicate Good(tr: ScTrace, s: Vectors) {
    Own(tr, s) && Closed(tr, s, |tr|)
  }

  /** No constraint was added if none counted. */
  lemma {:induction false} UpdateSame(tr: ScTrace, lists: Lists, s: Vectors, changed: bool, act: nat, i: nat)
    requires act < |tr| == |s.cvs| && ListsIn(tr, lists) && AllSet(s) && i <= |lists|
             && !UpdateConstraints(tr, lists, s, changed, act, i).1
    ensures !changed && UpdateConstraints(tr, lists, s, changed, act, i).0 == s
    decreases |lists| - i
  {
    if i < |lists| {
      if i == tr[act].tid {
        UpdateSame(tr, lists, s, changed, act, i + 1);
      } else {
        var p := AfterAct(tr, s, act, lists[i], 0);
        UpdateSame(tr, lists, p.0, changed || p.1, act, i + 1);
        AfterSame(tr, s, act, lists[i], 0);
      }
    }
  }

  lemma {:induction false} AfterSame(tr: ScTrace, s: Vectors, act: nat, l: seq<nat>, k: nat)
    requires act < |tr| == |s.cvs| && k <= |l| && (forall i {:trigger l[i]} :: 0 <= i < |l| ==> l[i] < |tr|)
             && AllSet(s)
    ensures !AfterAct(tr, s, act, l, k).1 ==> AfterAct(tr, s, act, l, k).0 == s
    decreases |l| - k
  {
    if k < |l| {
      AfterSame(tr, s, act, l, k + 1);
    }
  }

  lemma TakenGood(tr: ScTrace, threads: nat, g: Gen, a: nat)
    requires Complete(tr, threads) && GenOk(tr, threads, g) && IsFront(tr, g.lists, a) && Good(tr, g.s)
    ensures Good(tr, Taken(tr, threads, g, a).s)
  {
    hide Computed, UpdateConstraints, Split, Complete, Bounded, Own, Closed;
    var lists := Pop(g.lists, tr[a].tid);
    PopOk(tr, g.lists, a);
    var p := UpdateConstraints(tr, lists, g.s, false, a, 0);
    UpdateStep(tr, lists, g.s, false, a, 0, threads);
    if p.1 {
      SetsSame(g.s, p.0);
      OwnKept(tr, g.s, p.0);
      ComputedOwn(tr, p.0, true, threads);
      ComputedCloses(tr, p.0, true, threads);
    } else {
      UpdateSame(tr, lists, g.s, false, a, 0);
    }
  }

  lemma SetsSame(s: Vectors, s': Vectors)
    requires AllSet(s) && AllSet(s') && |s.cvs| == |s'.cvs|
    ensures SameSet(s, s')
  {
  }

  lemma {:induction false} RunGood(tr: ScTrace, threads: nat, plan: seq<nat>, n: nat)
    requires Complete(tr, threads)
    ensures Good(tr, RunTo(tr, threads, plan, n).s)
    decreases n
  {
    hide Good, Complete, GenOk, Taken, Candidates, Picked;
    if n == 0 {
      StartGood(tr, threads);
    } else {
      RunGood(tr, threads, plan, n - 1);
      var g := RunTo(tr, threads, plan, n - 1);
      if Candidates(tr, threads, g) != [] {
        TakenGood(tr, threads, g, Picked(tr, threads, g, if g.used < |plan| then plan[g.used] else 0));
      }
    }
  }

  lemma StartGood(tr: ScTrace, threads: nat)
    requires Complete(tr, threads)
    ensures Good(tr, Start(tr, threads).s)
  {
    var s := Unset(|tr|);
    ComputedOwn(tr, s, true, threads);
    ComputedCloses(tr, s, true, threads);
  }

  /**
   * As long as no cycle is met and the clocks decide, whatever is ordered before an action by program order,
   * creation, joins and reading is emitted before it.
   */
  lemma RunRespects(tr: ScTrace, threads: nat, plan: seq<nat>, n: nat, k: nat, p: seq<nat>)
    requires Complete(tr, threads)
    requires var g := RunTo(tr, threads, plan, n);
             && !g.s.cyclic && k < |Candidates(tr, threads, g)| && ClocksDecide(tr, threads, g)
             && Path(tr, p) && |p| > 1 && p[|p| - 1] == Candidates(tr, threads, g)[k]
    ensures p[0] in RunTo(tr, threads, plan, n).out
  {
    var g := RunTo(tr, threads, plan, n);
    var a, b := p[|p| - 1], p[0];
    RunGood(tr, threads, plan, n);
    PathLeq(tr, g.s, p);
    PathEarlier(tr, p);
    BeforeFront(tr, threads, g, k, b, a);
  }

  lemma {:induction false} PathEarlier(tr: ScTrace, p: seq<nat>)
    requires Path(tr, p)
    ensures if |p| > 1 then p[0] < p[|p| - 1] else p[0] == p[|p| - 1]
    decreases |p|
  {
    var m := |p| - 1;
    if m > 0 {
      var q := p[..m];
      forall i: nat | i < |q| - 1
        ensures Link(tr, q, i)
      {
        assert Link(tr, p, i);
      }
      PathEarlier(tr, q);
      assert Link(tr, p, m - 1);
    }
  }

  /** The computed clocks leave some front unblocked. */
  ghost predicate ClocksDecide(tr: ScTrace, threads: nat, g: Gen)
    requires GenOk(tr, threads, g)
  {
    Fronts(tr, g.lists);
    Ready(g.lists, ClocksOf(g.s), 0) != []
  }

  lemma BelowFront(l: seq<nat>, b: nat)
    requires Increasing(l) && l != [] && b < l[0]
    ensures b !in l
  {
    assert forall j :: 0 <= j < |l| ==> l[0] <= l[j];
  }

  lemma BeforeFront(tr: ScTrace, threads: nat, g: Gen, k: nat, b: nat, a: nat)
    requires GenOk(tr, threads, g) && ClocksDecide(tr, threads, g) && k < |Candidates(tr, threads, g)|
             && a == Candidates(tr, threads, g)[k]
    requires b < a < |tr| && Own(tr, g.s) && Leq(g.s.cvs[b].value, g.s.cvs[a].value)
    ensures b in g.out
  {
    var c, d := g.s.cvs[b].value, g.s.cvs[a].value;
    assert Since(c, tr[b].tid, b) && At(c, tr[b].tid) <= At(d, tr[b].tid);
    if tr[b].tid != tr[a].tid {
      EmittedBefore(tr, threads, g, k, b);
    } else {
      assert Somewhere(tr, g.lists, g.out, b);
      var l := g.lists[tr[a].tid];
      assert IsFront(tr, g.lists, a) && Increasing(l);
      BelowFront(l, b);
    }
  }
  // ----- when another pass would find nothing -----

  /** Creations and joined threads' last actions come earlier in the trace. */
  ghost predicate Backward(tr: ScTrace) {
    forall a {:trigger tr[a]} ::
      0 <= a < |tr| ==>
        (tr[a].creation.Some? ==> tr[a].creation.value < a) && (tr[a].join.Some? ==> tr[a].join.value < a)
  }

  lemma EvenExceeds(c: Clock, d: Clock, c': Clock, d': Clock)
    requires Even(c, c') && Even(d, d')
    ensures Exceeds(d, c) == Exceeds(d', c')
  {
    ExceedsAt(d, c);
    ExceedsAt(d', c');
    forall t: nat
      ensures At(c, t) == At(c', t) && At(d, t) == At(d', t)
    {
    }
  }

  /** Merging does the same where the entries are the same. */
  lemma MergeEven(tr: ScTrace, s: Vectors, u: Vectors, a: nat, b: nat)
    requires a < |s.cvs| == |tr| && b < |tr| && Alike(s, u)
    ensures Merge(tr, s, a, b).1 == Merge(tr, u, a, b).1 && Alike(Merge(tr, s, a, b).0, Merge(tr, u, a, b).0)
  {
    var c, d, c', d' := s.cvs[a].value, s.cvs[b].value, u.cvs[a].value, u.cvs[b].value;
    assert Even(c, c') && Even(d, d');
    EvenExceeds(c, d, c', d');
    assert At(d, tr[a].tid) == At(d', tr[a].tid);
    assert Even(Join(c, d), Join(c', d')) by {
      forall t: nat
        ensures At(Join(c, d), t) == At(Join(c', d'), t)
      {
        assert At(c, t) == At(c', t) && At(d, t) == At(d', t);
      }
    }
  }

  /** The same entries, whatever was said about cycles. */
  ghost predicate Alike(s: Vectors, u: Vectors) {
    && AllSet(s) && AllSet(u) && |u.cvs| == |s.cvs|
    && forall x {:trigger u.cvs[x]} {:trigger s.cvs[x]} :: 0 <= x < |s.cvs| ==> Even(s.cvs[x].value, u.cvs[x].value)
  }

  lemma {:induction false} ReadBackEven(tr: ScTrace, s: Vectors, u: Vectors, changed: bool, r: nat, l: seq<nat>, k: nat)
    requires |s.cvs| == |tr| && r < |tr| && tr[r].rf < |tr| && k <= |l| && Listed(tr, l) && Alike(s, u)
    ensures ReadBack(tr, s, changed, r, l, k).1 == ReadBack(tr, u, changed, r, l, k).1
    ensures Alike(ReadBack(tr, s, changed, r, l, k).0, ReadBack(tr, u, changed, r, l, k).0)
    decreases k
  {
    hide Merge;
    if k > 0 {
      var w2, w := l[k - 1], tr[r].rf;
      if !tr[w2].write {
        ReadBackEven(tr, s, u, changed, r, l, k - 1);
      } else {
        MergeEven(tr, s, u, w2, r);
        MergeSets(tr, s, w2, r);
        MergeSets(tr, u, w2, r);
        assert At(s.cvs[w2].value, tr[w].tid) == At(u.cvs[w2].value, tr[w].tid);
        var p := if Since(s.cvs[w2].value, tr[w].tid, w) then Merge(tr, s, w2, r) else (s, false);
        var q := if Since(u.cvs[w2].value, tr[w].tid, w) then Merge(tr, u, w2, r) else (u, false);
        assert At(p.0.cvs[r].value, tr[w2].tid) == At(q.0.cvs[r].value, tr[w2].tid);
        if Since(p.0.cvs[r].value, tr[w2].tid, w2) {
          MergeEven(tr, p.0, q.0, w, w2);
        } else {
          ReadBackEven(tr, p.0, q.0, changed || p.1, r, l, k - 1);
        }
      }
    }
  }

  lemma {:induction false} ReadThreadsEven(tr: ScTrace, s: Vectors, u: Vectors, changed: bool, r: nat, threads: nat,
                                           t: nat)
    requires |s.cvs| == |tr| && r < |tr| && tr[r].rf < |tr| && t <= threads && Alike(s, u)
    ensures ReadThreads(tr, s, changed, r, threads, t).1 == ReadThreads(tr, u, changed, r, threads, t).1
    decreases threads - t
  {
    hide ReadBack, Alike;
    AlikeSet(s, u);
    if t < threads {
      if t == tr[r].tid || t == tr[tr[r].rf].tid {
        ReadThreadsEven(tr, s, u, changed, r, threads, t + 1);
      } else {
        var l := OnObject(tr, tr[r].loc, t, |tr|);
        ReadBackEven(tr, s, u, changed, r, l, |l|);
        var p, q := ReadBack(tr, s, changed, r, l, |l|), ReadBack(tr, u, changed, r, l, |l|);
        ReadBackSets(tr, s, changed, r, l, |l|);
        ReadBackSets(tr, u, changed, r, l, |l|);
        ReadThreadsEven(tr, p.0, q.0, p.1, r, threads, t + 1);
      }
    }
  }

  lemma AlikeSet(s: Vectors, u: Vectors)
    requires Alike(s, u)
    ensures AllSet(s) && AllSet(u) && |u.cvs| == |s.cvs|
  {
  }

  lemma ReadEven(tr: ScTrace, s: Vectors, u: Vectors, r: nat, threads: nat)
    requires |s.cvs| == |tr| && r < |tr| && tr[r].rf < |tr| && Alike(s, u)
    ensures ProcessRead(tr, s, r, threads).1 == ProcessRead(tr, u, r, threads).1
  {
    hide Merge, ReadThreads;
    MergeEven(tr, s, u, r, tr[r].rf);
    MergeSets(tr, s, r, tr[r].rf);
    MergeSets(tr, u, r, tr[r].rf);
    var p, q := Merge(tr, s, r, tr[r].rf), Merge(tr, u, r, tr[r].rf);
    ReadThreadsEven(tr, p.0, q.0, p.1 && r < tr[r].rf, r, threads, 0);
  }

  /** An ordering that is in makes no difference. */
  lemma UnderQuiet(tr: ScTrace, s: Vectors, b: nat, a: nat)
    requires a < |s.cvs| == |tr| && b < |tr| && AllSet(s) && Under(tr, s, b, a)
    ensures Still(s, Merge(tr, s, a, b).0) && !Merge(tr, s, a, b).1
  {
    var c, d := s.cvs[a].value, s.cvs[b].value;
    if !Since(d, tr[a].tid, a) {
      ExceedsAt(d, c);
      assert Leq(d, c);
      assert !Exceeds(d, c);
    }
    MergeStill(tr, s, a, b);
  }

  lemma LastDirect(tr: ScTrace, last: map<nat, nat>, a: nat)
    requires a < |tr| && Latest(tr, last, a) && Backward(tr) && LastAct(tr, last, a).Some?
    ensures Direct(tr, LastAct(tr, last, a).value, a)
  {
    if !tr[a].start {
      var b := last[tr[a].tid];
      forall x | b < x < a
        ensures tr[x].tid != tr[a].tid
      {
      }
    }
  }

  /** A visit to an action whose orderings are in only looks at what it reads. */
  lemma VisitQuiet(tr: ScTrace, s: Vectors, u: Vectors, a: nat, last: map<nat, nat>, threads: nat)
    requires Complete(tr, threads) && a < |tr| && Closed(tr, s, |tr|) && Still(s, u) && Latest(tr, last, a)
             && LastOk(tr, last) && Backward(tr)
    ensures Visit(tr, u, false, a, LastAct(tr, last, a), threads).1 == (tr[a].read && tr[a].rf < |tr|
              && ProcessRead(tr, s, a, threads).1)
    ensures !Visit(tr, u, false, a, LastAct(tr, last, a), threads).1 ==>
              Still(s, Visit(tr, u, false, a, LastAct(tr, last, a), threads).0)
  {
    hide Merge, Complete, Under, Closed, ProcessRead, Direct, Still;
    CompleteAt(tr, threads, a);
    ClosedSet(tr, s, |tr|);
    StillSet(s, u);
    var l := LastAct(tr, last, a);
    var u1 := if l.Some? then Merge(tr, u, a, l.value).0 else u;
    MergeKeeps(tr, u, a, l);
    if l.Some? {
      LastDirect(tr, last, a);
      QuietMerge(tr, s, u, l.value, a);
    }
    StillSet(s, u1);
    var p2 := if tr[a].join.Some? then Merge(tr, u1, a, tr[a].join.value) else (u1, false);
    MergeKeeps(tr, u1, a, tr[a].join);
    if tr[a].join.Some? {
      JoinDirect(tr, a);
      QuietMerge(tr, s, u1, tr[a].join.value, a);
    }
    StillSet(s, p2.0);
    if tr[a].read {
      ReadEven(tr, s, p2.0, a, threads);
      if !ProcessRead(tr, p2.0, a, threads).1 {
        QuietRead(tr, s, p2.0, a, threads);
      }
    }
  }

  lemma StillSet(s: Vectors, u: Vectors)
    requires Still(s, u)
    ensures AllSet(u) && |u.cvs| == |s.cvs| && Alike(s, u)
  {
  }

  lemma JoinDirect(tr: ScTrace, a: nat)
    requires a < |tr| && Backward(tr) && tr[a].join.Some?
    ensures Direct(tr, tr[a].join.value, a)
  {
  }

  lemma QuietMerge(tr: ScTrace, s: Vectors, u: Vectors, b: nat, a: nat)
    requires Closed(tr, s, |tr|) && Still(s, u) && a < |tr| && Direct(tr, b, a)
    ensures Still(s, Merge(tr, u, a, b).0) && !Merge(tr, u, a, b).1
  {
    hide Merge, Direct, Still;
    DirectEarlier(tr, b, a);
    StillSet(s, u);
    assert Under(tr, s, b, a);
    StillUnder(tr, s, u, b, a);
    UnderQuiet(tr, u, b, a);
    StillTrans(s, u, Merge(tr, u, a, b).0);
  }

  lemma QuietRead(tr: ScTrace, s: Vectors, u: Vectors, r: nat, threads: nat)
    requires Closed(tr, s, |tr|) && Still(s, u) && r < |tr| && tr[r].read && tr[r].rf < |tr|
             && !ProcessRead(tr, u, r, threads).1
    ensures Still(s, ProcessRead(tr, u, r, threads).0)
  {
    hide Merge, Direct, Still, ReadThreads, Closed;
    var w := tr[r].rf;
    ClosedSet(tr, s, |tr|);
    StillSet(s, u);
    var p := Merge(tr, u, r, w);
    MergeSets(tr, u, r, w);
    ReadThreadsStill(tr, p.0, p.1 && r < w, r, threads, 0);
    if w < r {
      ReadDirect(tr, r);
      QuietMerge(tr, s, u, w, r);
    } else if w > r {
      MergeStill(tr, u, r, w);
      StillTrans(s, u, p.0);
    } else {
      SelfUnder(tr, u, r);
      UnderQuiet(tr, u, r, r);
      StillTrans(s, u, p.0);
    }
    StillTrans(s, p.0, ReadThreads(tr, p.0, p.1 && r < w, r, threads, 0).0);
  }

  lemma SelfUnder(tr: ScTrace, s: Vectors, a: nat)
    requires a < |tr| == |s.cvs| && AllSet(s)
    ensures Under(tr, s, a, a)
  {
  }

  lemma ReadDirect(tr: ScTrace, r: nat)
    requires r < |tr| && tr[r].read && tr[r].rf < r
    ensures Direct(tr, tr[r].rf, r)
  {
  }

  /** Some read from a on has something left to order. */
  ghost predicate Unsettled(tr: ScTrace, s: Vectors, a: nat, threads: nat)
    requires |s.cvs| == |tr| && AllSet(s)
  {
    exists x: nat :: a <= x < |tr| && tr[x].read && tr[x].rf < |tr| && ProcessRead(tr, s, x, threads).1
  }

  lemma {:induction false} PassQuiet(tr: ScTrace, s: Vectors, u: Vectors, a: nat, last: map<nat, nat>, threads: nat)
    requires Complete(tr, threads) && a <= |tr| && Closed(tr, s, |tr|) && Still(s, u) && Latest(tr, last, a)
             && LastOk(tr, last) && Backward(tr)
    ensures |u.cvs| == |tr| && Pass(tr, u, false, a, last, threads).1 == Unsettled(tr, s, a, threads)
    decreases |tr| - a
  {
    hide Visit, Complete, Closed, Latest, Still, Backward, ProcessRead;
    ClosedSet(tr, s, |tr|);
    StillSet(s, u);
    if a < |tr| {
      CompleteAt(tr, threads, a);
      VisitQuiet(tr, s, u, a, last, threads);
      var p := Visit(tr, u, false, a, LastAct(tr, last, a), threads);
      LatestNext(tr, last, a);
      if p.1 {
        PassSticky(tr, p.0, a + 1, last[tr[a].tid := a], threads);
      } else {
        PassQuiet(tr, s, p.0, a + 1, last[tr[a].tid := a], threads);
      }
    }
  }

  /**
   * When the passes stop, another would find something exactly if some read still has something to order: nothing
   * that comes from the program itself is ever left.
   */
  lemma SettledExactly(tr: ScTrace, s: Vectors, threads: nat)
    requires Complete(tr, threads) && |s.cvs| == |tr| && Bounded(s, threads) && Backward(tr)
    ensures var r := Computed(tr, s, true, threads);
            Pass(tr, r, false, 0, map[], threads).1 == Unsettled(tr, r, 0, threads)
  {
    hide Computed, Pass, Closed, Backward, Complete;
    var r := Computed(tr, s, true, threads);
    ComputedCloses(tr, s, true, threads);
    StillRefl(r);
    NothingYet(tr, r);
    PassQuiet(tr, r, r, 0, map[], threads);
  }

  lemma StillRefl(s: Vectors)
    requires AllSet(s)
    ensures Still(s, s)
  {
  }
}
