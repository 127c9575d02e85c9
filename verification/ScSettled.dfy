/** When the passes have found everything: exactly when the computed clocks respect every rule. */
module ScSettled {
  import opened GraphTheory
  import opened Clocks
  import opened ScTheory
  import opened ScPasses
  import opened ScChoices
  import opened ScGeneration
  import opened ScFixpoint
  import opened ScSolutions

  /** The clock of a takes in that of b, and b does not come after a. */
  ghost predicate Orders(tr: ScTrace, s: Vectors, b: nat, a: nat)
    requires a < |tr| == |s.cvs| && b < |tr| && AllSet(s)
  {
    Leq(s.cvs[b].value, s.cvs[a].value) && !Since(s.cvs[b].value, tr[a].tid, a)
  }

  /** Both rules hold for a third write, and neither goes round. */
  ghost predicate RulesAt(tr: ScTrace, s: Vectors, r: nat, w2: nat)
    requires r < |tr| == |s.cvs| && w2 < |tr| && tr[r].rf < |tr| && AllSet(s)
  {
    var w := tr[r].rf;
    && (Since(s.cvs[w2].value, tr[w].tid, w) ==> Orders(tr, s, r, w2))
    && (Since(s.cvs[r].value, tr[w2].tid, w2) ==> Orders(tr, s, w2, w))
  }

  /** Clocks of an order that respects every rule. */
  ghost predicate IsOrder(tr: ScTrace, s: Vectors) {
    && |s.cvs| == |tr| && AllSet(s)
    && (forall b: nat, a: nat {:trigger Follows(tr, b, a)} :: Follows(tr, b, a) ==> Orders(tr, s, b, a))
    && (forall r: nat, w2: nat {:trigger Third(tr, r, w2)} :: Third(tr, r, w2) ==> RulesAt(tr, s, r, w2))
  }

  /** A step that found nothing: no change and no cycle. */
  ghost predicate Quiet(p: (Vectors, bool)) {
    !p.1 && !p.0.cyclic
  }

  /** Another pass finds nothing. */
  ghost predicate Settled(tr: ScTrace, s: Vectors, threads: nat)
    requires Complete(tr, threads) && |s.cvs| == |tr|
  {
    Quiet(Pass(tr, s.(cyclic := false), false, 0, map[], threads))
  }

  // ----- one merge -----

  lemma OrdersEven(tr: ScTrace, s: Vectors, u: Vectors, b: nat, a: nat)
    requires a < |tr| == |s.cvs| && b < |tr| && Alike(s, u)
    ensures Orders(tr, s, b, a) == Orders(tr, u, b, a)
  {
    var c, d, c', d' := s.cvs[b].value, s.cvs[a].value, u.cvs[b].value, u.cvs[a].value;
    assert Even(c, c') && Even(d, d');
    forall t: nat
      ensures At(c, t) == At(c', t) && At(d, t) == At(d', t)
    {
    }
  }

  lemma RulesEven(tr: ScTrace, s: Vectors, u: Vectors, r: nat, w2: nat)
    requires r < |tr| == |s.cvs| && w2 < |tr| && tr[r].rf < |tr| && Alike(s, u)
    ensures RulesAt(tr, s, r, w2) == RulesAt(tr, u, r, w2)
  {
    hide Orders;
    var w := tr[r].rf;
    OrdersEven(tr, s, u, r, w2);
    OrdersEven(tr, s, u, w2, w);
    assert At(s.cvs[w2].value, tr[w].tid) == At(u.cvs[w2].value, tr[w].tid);
    assert At(s.cvs[r].value, tr[w2].tid) == At(u.cvs[r].value, tr[w2].tid);
  }

  /** Merging finds nothing exactly if the ordering is in. */
  lemma MergeQuiet(tr: ScTrace, s: Vectors, a: nat, b: nat)
    requires a < |tr| == |s.cvs| && b < |tr| && AllSet(s) && !s.cyclic
    ensures Quiet(Merge(tr, s, a, b)) <==> Orders(tr, s, b, a)
    ensures Quiet(Merge(tr, s, a, b)) ==> Alike(s, Merge(tr, s, a, b).0)
  {
    var c, d := s.cvs[a].value, s.cvs[b].value;
    ExceedsAt(d, c);
    if Quiet(Merge(tr, s, a, b)) {
      MergeStill(tr, s, a, b);
    }
  }

  lemma AlikeTrans(s: Vectors, t: Vectors, u: Vectors)
    requires Alike(s, t) && Alike(t, u)
    ensures Alike(s, u)
  {
    hide Even;
    forall x | 0 <= x < |s.cvs|
      ensures Even(s.cvs[x].value, u.cvs[x].value)
    {
      EvenTrans(s.cvs[x].value, t.cvs[x].value, u.cvs[x].value);
    }
  }

  lemma AlikeRefl(s: Vectors)
    requires AllSet(s)
    ensures Alike(s, s) && Alike(s, s.(cyclic := false))
  {
  }

  // ----- the scan of one thread -----

  /** In a thread, clocks grow. */
  ghost predicate ThreadUp(tr: ScTrace, s: Vectors) {
    && |s.cvs| == |tr| && AllSet(s)
    && forall x, y {:trigger s.cvs[x], s.cvs[y]} ::
         0 <= x < y < |tr| && tr[x].tid == tr[y].tid ==> Leq(s.cvs[x].value, s.cvs[y].value)
  }

  ghost predicate InThread(tr: ScTrace, l: seq<nat>) {
    && (forall i {:trigger l[i]} :: 0 <= i < |l| ==> l[i] < |tr|)
    && forall i, j {:trigger l[i], l[j]} :: 0 <= i < j < |l| ==> l[i] < l[j] && tr[l[i]].tid == tr[l[j]].tid
  }

  lemma ThreadUpEven(tr: ScTrace, s: Vectors, u: Vectors)
    requires ThreadUp(tr, s) && Alike(s, u)
    ensures ThreadUp(tr, u)
  {
    forall x, y | 0 <= x < y < |tr| && tr[x].tid == tr[y].tid
      ensures Leq(u.cvs[x].value, u.cvs[y].value)
    {
      var c, d, c', d' := s.cvs[x].value, s.cvs[y].value, u.cvs[x].value, u.cvs[y].value;
      assert Even(c, c') && Even(d, d') && Leq(c, d);
      forall t: nat
        ensures At(c', t) <= At(d', t)
      {
        assert At(c, t) == At(c', t) && At(d, t) == At(d', t) && At(c, t) <= At(d, t);
      }
    }
  }

  /** What was before the scan stopped: the rules for older writes follow from those of the write it stopped at. */
  lemma OlderRules(tr: ScTrace, s: Vectors, r: nat, w2: nat, v: nat)
    requires r < |tr| == |s.cvs| && tr[r].rf < |tr| && v < w2 < |tr| && tr[v].tid == tr[w2].tid && ThreadUp(tr, s)
    requires Orders(tr, s, w2, tr[r].rf)
    ensures RulesAt(tr, s, r, v)
  {
    var w := tr[r].rf;
    var c, d, e := s.cvs[v].value, s.cvs[w2].value, s.cvs[w].value;
    assert Leq(c, d);
    assert At(c, tr[w].tid) <= At(d, tr[w].tid);
    LeqTrans(c, d, e);
  }

  lemma {:induction false} ReadBackQuiet(tr: ScTrace, s: Vectors, r: nat, l: seq<nat>, k: nat)
    requires |s.cvs| == |tr| && r < |tr| && tr[r].rf < |tr| && k <= |l| && Listed(tr, l) && InThread(tr, l)
    requires ThreadUp(tr, s) && !s.cyclic && Quiet(ReadBack(tr, s, false, r, l, k))
    ensures forall i {:trigger l[i]} :: 0 <= i < k && tr[l[i]].write ==> RulesAt(tr, s, r, l[i])
    decreases k
  {
    hide Merge, Orders, RulesAt, Alike, ThreadUp, Leq;
    SetOf(tr, s);
    if k > 0 {
      var w2, w := l[k - 1], tr[r].rf;
      if !tr[w2].write {
        ReadBackQuiet(tr, s, r, l, k - 1);
      } else {
        var p := if Since(s.cvs[w2].value, tr[w].tid, w) then Merge(tr, s, w2, r) else (s, false);
        MergeSets(tr, s, w2, r);
        FirstQuiet(tr, s, r, l, k);
        ThreadUpEven(tr, s, p.0);
        SetOf(tr, p.0);
        if Since(p.0.cvs[r].value, tr[w2].tid, w2) {
          MergeQuiet(tr, p.0, w, w2);
          forall i | 0 <= i < k && tr[l[i]].write
            ensures RulesAt(tr, s, r, l[i])
          {
            if i < k - 1 {
              OlderRules(tr, p.0, r, w2, l[i]);
            } else {
              LastRule(tr, p.0, r, w2);
            }
            RulesEven(tr, s, p.0, r, l[i]);
          }
        } else {
          ReadBackQuiet(tr, p.0, r, l, k - 1);
          forall i | 0 <= i < k && tr[l[i]].write
            ensures RulesAt(tr, s, r, l[i])
          {
            RulesEven(tr, s, p.0, r, l[i]);
            if i == k - 1 {
              FirstRule(tr, s, p.0, r, w2);
            }
          }
        }
      }
    }
  }

  lemma SetOf(tr: ScTrace, s: Vectors)
    requires ThreadUp(tr, s)
    ensures AllSet(s) && |s.cvs| == |tr|
  {
  }

  /** The first merge of a turn of a quiet scan was quiet. */
  lemma FirstQuiet(tr: ScTrace, s: Vectors, r: nat, l: seq<nat>, k: nat)
    requires |s.cvs| == |tr| && r < |tr| && tr[r].rf < |tr| && 0 < k <= |l| && Listed(tr, l) && AllSet(s) && !s.cyclic
    requires tr[l[k - 1]].write && Quiet(ReadBack(tr, s, false, r, l, k))
    ensures var w2, w := l[k - 1], tr[r].rf;
            var p := if Since(s.cvs[w2].value, tr[w].tid, w) then Merge(tr, s, w2, r) else (s, false);
            && Quiet(p) && Alike(s, p.0) && (Since(s.cvs[w2].value, tr[w].tid, w) ==> Orders(tr, s, r, w2))
  {
    hide Merge, Orders, Alike;
    var w2, w := l[k - 1], tr[r].rf;
    var p := if Since(s.cvs[w2].value, tr[w].tid, w) then Merge(tr, s, w2, r) else (s, false);
    MergeSets(tr, s, w2, r);
    AlikeRefl(s);
    MergeQuiet(tr, s, w2, r);
    if Since(p.0.cvs[r].value, tr[w2].tid, w2) {
      MergeStep(tr, p.0, w, w2, 0);
    } else {
      NoStep(p.0, 0);
      if p.1 {
        ReadBackSticky(tr, p.0, r, l, k - 1);
      }
      ReadBackCyclic(tr, p.0, p.1, r, l, k - 1);
    }
  }

  lemma {:induction false} ReadBackSticky(tr: ScTrace, s: Vectors, r: nat, l: seq<nat>, k: nat)
    requires |s.cvs| == |tr| && r < |tr| && tr[r].rf < |tr| && k <= |l| && Listed(tr, l) && AllSet(s)
    ensures ReadBack(tr, s, true, r, l, k).1
    decreases k
  {
    hide Merge;
    if k > 0 {
      var w2, w := l[k - 1], tr[r].rf;
      if !tr[w2].write {
        ReadBackSticky(tr, s, r, l, k - 1);
      } else {
        var p := if Since(s.cvs[w2].value, tr[w].tid, w) then Merge(tr, s, w2, r) else (s, false);
        MergeSets(tr, s, w2, r);
        if !Since(p.0.cvs[r].value, tr[w2].tid, w2) {
          ReadBackSticky(tr, p.0, r, l, k - 1);
        }
      }
    }
  }

  lemma {:induction false} ReadBackCyclic(tr: ScTrace, s: Vectors, changed: bool, r: nat, l: seq<nat>, k: nat)
    requires |s.cvs| == |tr| && r < |tr| && tr[r].rf < |tr| && k <= |l| && Listed(tr, l) && AllSet(s)
    ensures s.cyclic ==> ReadBack(tr, s, changed, r, l, k).0.cyclic
    decreases k
  {
    if k > 0 {
      var w2, w := l[k - 1], tr[r].rf;
      if !tr[w2].write {
        ReadBackCyclic(tr, s, changed, r, l, k - 1);
      } else {
        var p := if Since(s.cvs[w2].value, tr[w].tid, w) then Merge(tr, s, w2, r) else (s, false);
        MergeSets(tr, s, w2, r);
        if !Since(p.0.cvs[r].value, tr[w2].tid, w2) {
          ReadBackCyclic(tr, p.0, changed || p.1, r, l, k - 1);
        }
      }
    }
  }

  lemma LastRule(tr: ScTrace, s: Vectors, r: nat, w2: nat)
    requires r < |tr| == |s.cvs| && w2 < |tr| && tr[r].rf < |tr| && AllSet(s) && Orders(tr, s, w2, tr[r].rf)
    ensures RulesAt(tr, s, r, w2)
  {
  }

  lemma FirstRule(tr: ScTrace, s: Vectors, u: Vectors, r: nat, w2: nat)
    requires r < |tr| == |s.cvs| && w2 < |tr| && tr[r].rf < |tr| && Alike(s, u)
    requires Since(s.cvs[w2].value, tr[tr[r].rf].tid, tr[r].rf) ==> Orders(tr, s, r, w2)
    requires !Since(u.cvs[r].value, tr[w2].tid, w2)
    ensures RulesAt(tr, s, r, w2)
  {
    hide Orders;
    assert At(s.cvs[r].value, tr[w2].tid) == At(u.cvs[r].value, tr[w2].tid);
  }

  /** And a scan finds nothing where the rules hold. */
  lemma {:induction false} ReadBackCalm(tr: ScTrace, s: Vectors, r: nat, l: seq<nat>, k: nat)
    requires |s.cvs| == |tr| && r < |tr| && tr[r].rf < |tr| && k <= |l| && Listed(tr, l) && AllSet(s) && !s.cyclic
    requires forall i {:trigger l[i]} :: 0 <= i < k && tr[l[i]].write ==> RulesAt(tr, s, r, l[i])
    ensures Quiet(ReadBack(tr, s, false, r, l, k)) && Alike(s, ReadBack(tr, s, false, r, l, k).0)
    decreases k
  {
    hide Merge, Orders, Alike;
    AlikeRefl(s);
    if k > 0 {
      var w2, w := l[k - 1], tr[r].rf;
      if !tr[w2].write {
        ReadBackCalm(tr, s, r, l, k - 1);
      } else {
        assert RulesAt(tr, s, r, w2);
        var p := if Since(s.cvs[w2].value, tr[w].tid, w) then Merge(tr, s, w2, r) else (s, false);
        MergeSets(tr, s, w2, r);
        MergeQuiet(tr, s, w2, r);
        AlikeSet(s, p.0);
        forall i | 0 <= i < k && tr[l[i]].write
          ensures RulesAt(tr, p.0, r, l[i])
        {
          RulesEven(tr, s, p.0, r, l[i]);
        }
        assert RulesAt(tr, p.0, r, l[k - 1]);
        if Since(p.0.cvs[r].value, tr[w2].tid, w2) {
          MergeQuiet(tr, p.0, w, w2);
          AlikeTrans(s, p.0, Merge(tr, p.0, w, w2).0);
        } else {
          ReadBackCalm(tr, p.0, r, l, k - 1);
          AlikeTrans(s, p.0, ReadBack(tr, p.0, false, r, l, k - 1).0);
        }
      }
    }
  }
  // ----- all threads -----

  lemma {:induction false} OnObjectIn(tr: ScTrace, loc: nat, t: nat, n: nat)
    requires n <= |tr|
    ensures InThread(tr, OnObject(tr, loc, t, n))
    ensures forall a :: 0 <= a < n && tr[a].tid == t && tr[a].loc == loc ==> a in OnObject(tr, loc, t, n)
    decreases n
  {
    if n > 0 {
      OnObjectIn(tr, loc, t, n - 1);
    }
  }

  lemma {:induction false} ReadThreadsSticky(tr: ScTrace, s: Vectors, r: nat, threads: nat, t: nat)
    requires |s.cvs| == |tr| && r < |tr| && tr[r].rf < |tr| && t <= threads && AllSet(s)
    ensures ReadThreads(tr, s, true, r, threads, t).1
    decreases threads - t
  {
    hide ReadBack;
    if t < threads {
      if t == tr[r].tid || t == tr[tr[r].rf].tid {
        ReadThreadsSticky(tr, s, r, threads, t + 1);
      } else {
        var l := OnObject(tr, tr[r].loc, t, |tr|);
        ReadBackSticky(tr, s, r, l, |l|);
        ReadBackSets(tr, s, true, r, l, |l|);
        ReadThreadsSticky(tr, ReadBack(tr, s, true, r, l, |l|).0, r, threads, t + 1);
      }
    }
  }

  /** The rules hold for the third writes of the threads from t on. */
  ghost predicate ThreadRules(tr: ScTrace, s: Vectors, r: nat, t: nat, threads: nat)
    requires r < |tr| == |s.cvs| && tr[r].rf < |tr| && AllSet(s)
  {
    forall w2: nat {:trigger Third(tr, r, w2)} ::
      Third(tr, r, w2) && t <= tr[w2].tid < threads ==> RulesAt(tr, s, r, w2)
  }

  lemma {:induction false} ReadThreadsQuiet(tr: ScTrace, s: Vectors, r: nat, threads: nat, t: nat)
    requires |s.cvs| == |tr| && r < |tr| && tr[r].rf < |tr| && t <= threads && ThreadUp(tr, s) && !s.cyclic
    requires Quiet(ReadThreads(tr, s, false, r, threads, t))
    ensures AllSet(s) && ThreadRules(tr, s, r, t, threads)
    decreases threads - t
  {
    hide ReadBack, RulesAt, Alike, ThreadUp;
    SetOf(tr, s);
    if t < threads {
      if t == tr[r].tid || t == tr[tr[r].rf].tid {
        ReadThreadsQuiet(tr, s, r, threads, t + 1);
      } else {
        var l := OnObject(tr, tr[r].loc, t, |tr|);
        OnObjectIn(tr, tr[r].loc, t, |tr|);
        var p := ReadBack(tr, s, false, r, l, |l|);
        ReadBackSets(tr, s, false, r, l, |l|);
        NoStep(p.0, 0);
        if p.1 {
          ReadThreadsSticky(tr, p.0, r, threads, t + 1);
        }
        NoStep(p.0, 0);
        ReadThreadsStep(tr, p.0, false, r, threads, t + 1, p.0);
        ReadBackQuiet(tr, s, r, l, |l|);
        ReadBackCalm(tr, s, r, l, |l|);
        ThreadUpEven(tr, s, p.0);
        ReadThreadsQuiet(tr, p.0, r, threads, t + 1);
        forall w2: nat | Third(tr, r, w2) && t <= tr[w2].tid < threads
          ensures RulesAt(tr, s, r, w2)
        {
          if tr[w2].tid == t {
            assert w2 in l;
          } else {
            RulesEven(tr, s, p.0, r, w2);
          }
        }
      }
    }
  }

  lemma {:induction false} ReadThreadsCalm(tr: ScTrace, s: Vectors, r: nat, threads: nat, t: nat)
    requires |s.cvs| == |tr| && r < |tr| && tr[r].read && tr[r].rf < |tr| && t <= threads && AllSet(s) && !s.cyclic
    requires ThreadRules(tr, s, r, t, threads)
    ensures Quiet(ReadThreads(tr, s, false, r, threads, t)) && Alike(s, ReadThreads(tr, s, false, r, threads, t).0)
    decreases threads - t
  {
    hide ReadBack, RulesAt, Alike;
    AlikeRefl(s);
    if t < threads {
      if t == tr[r].tid || t == tr[tr[r].rf].tid {
        ReadThreadsCalm(tr, s, r, threads, t + 1);
      } else {
        var l := OnObject(tr, tr[r].loc, t, |tr|);
        forall i | 0 <= i < |l| && tr[l[i]].write
          ensures RulesAt(tr, s, r, l[i])
        {
          assert Third(tr, r, l[i]);
        }
        ReadBackCalm(tr, s, r, l, |l|);
        var p := ReadBack(tr, s, false, r, l, |l|);
        AlikeSet(s, p.0);
        forall w2: nat | Third(tr, r, w2) && t + 1 <= tr[w2].tid < threads
          ensures RulesAt(tr, p.0, r, w2)
        {
          RulesEven(tr, s, p.0, r, w2);
        }
        ReadThreadsCalm(tr, p.0, r, threads, t + 1);
        AlikeTrans(s, p.0, ReadThreads(tr, p.0, false, r, threads, t + 1).0);
      }
    }
  }

  // ----- one visit -----

  /** What a follows is in, and for a read the rules hold. */
  ghost predicate OrdersInto(tr: ScTrace, s: Vectors, a: nat)
    requires a < |tr| == |s.cvs| && AllSet(s)
  {
    && (forall b: nat {:trigger Follows(tr, b, a)} :: Follows(tr, b, a) ==> Orders(tr, s, b, a))
    && (forall w2: nat {:trigger Third(tr, a, w2)} :: Third(tr, a, w2) ==> RulesAt(tr, s, a, w2))
  }

  /** Where everything into a is in, its visit finds nothing. */
  lemma VisitCalm(tr: ScTrace, s: Vectors, a: nat, last: Option<nat>, threads: nat)
    requires Complete(tr, threads) && a < |s.cvs| == |tr|
             && (last.Some? ==> last.value < |tr| && Follows(tr, last.value, a))
    requires AllSet(s) && !s.cyclic && OrdersInto(tr, s, a)
    ensures Quiet(Visit(tr, s, false, a, last, threads)) && Alike(s, Visit(tr, s, false, a, last, threads).0)
  {
    hide Merge, Complete, Orders, RulesAt, Alike, ReadThreads;
    CompleteAt(tr, threads, a);
    AlikeRefl(s);
    var s1 := if last.Some? then Merge(tr, s, a, last.value).0 else s;
    MergeKeeps(tr, s, a, last);
    if last.Some? {
      MergeQuiet(tr, s, a, last.value);
    }
    AlikeSet(s, s1);
    var s2 := if tr[a].join.Some? then Merge(tr, s1, a, tr[a].join.value).0 else s1;
    MergeKeeps(tr, s1, a, tr[a].join);
    AlikeRefl(s1);
    if tr[a].join.Some? {
      assert Follows(tr, tr[a].join.value, a);
      OrdersEven(tr, s, s1, tr[a].join.value, a);
      MergeQuiet(tr, s1, a, tr[a].join.value);
    }
    AlikeTrans(s, s1, s2);
    AlikeSet(s, s2);
    if tr[a].read {
      var w := tr[a].rf;
      assert Follows(tr, w, a);
      OrdersEven(tr, s, s2, w, a);
      MergeSets(tr, s2, a, w);
      MergeQuiet(tr, s2, a, w);
      var p := Merge(tr, s2, a, w);
      AlikeTrans(s, s2, p.0);
      AlikeSet(s, p.0);
      forall w2: nat | Third(tr, a, w2) && 0 <= tr[w2].tid < threads
        ensures RulesAt(tr, p.0, a, w2)
      {
        RulesEven(tr, s, p.0, a, w2);
      }
      ReadThreadsCalm(tr, p.0, a, threads, 0);
      AlikeTrans(s, p.0, ReadThreads(tr, p.0, false, a, threads, 0).0);
    }
  }

  lemma {:induction false} PassCalm(tr: ScTrace, s: Vectors, u: Vectors, a: nat, last: map<nat, nat>, threads: nat)
    requires Complete(tr, threads) && a <= |s.cvs| == |tr| && LastOk(tr, last) && Latest(tr, last, a) && Alike(s, u)
             && !u.cyclic
    requires IsOrder(tr, s)
    ensures |u.cvs| == |tr| && Quiet(Pass(tr, u, false, a, last, threads))
    decreases |tr| - a
  {
    hide Visit, Complete, Alike, Latest, Follows, IsOrder;
    AlikeSet(s, u);
    if a < |tr| {
      CompleteAt(tr, threads, a);
      var l := LastAct(tr, last, a);
      if l.Some? {
        LastFollows(tr, last, a);
      }
      OrderInto(tr, s, u, a);
      VisitCalm(tr, u, a, l, threads);
      var p := Visit(tr, u, false, a, l, threads);
      AlikeTrans(s, u, p.0);
      LatestNext(tr, last, a);
      PassCalm(tr, s, p.0, a + 1, last[tr[a].tid := a], threads);
    }
  }

  lemma OrderInto(tr: ScTrace, s: Vectors, u: Vectors, a: nat)
    requires IsOrder(tr, s) && Alike(s, u) && a < |tr|
    ensures AllSet(u) && |u.cvs| == |tr| && OrdersInto(tr, u, a)
  {
    hide Orders, RulesAt;
    forall b: nat | Follows(tr, b, a)
      ensures Orders(tr, u, b, a)
    {
      OrdersEven(tr, s, u, b, a);
    }
    forall w2: nat | Third(tr, a, w2)
      ensures RulesAt(tr, u, a, w2)
    {
      RulesEven(tr, s, u, a, w2);
    }
  }
  // ----- a quiet pass -----

  /** No action reads from itself. */
  ghost predicate ReadsOthers(tr: ScTrace) {
    forall a {:trigger tr[a]} :: 0 <= a < |tr| && tr[a].read ==> tr[a].rf != a
  }

  /** The ordering is in, or merging would meet a cycle. */
  lemma UnderOrders(tr: ScTrace, s: Vectors, u: Vectors, b: nat, a: nat)
    requires Closed(tr, s, |tr|) && a < |tr| && Direct(tr, b, a) && Alike(s, u) && !u.cyclic
             && !Merge(tr, u, a, b).0.cyclic
    ensures Orders(tr, u, b, a) && Quiet(Merge(tr, u, a, b)) && Alike(s, Merge(tr, u, a, b).0)
  {
    hide Direct;
    DirectEarlier(tr, b, a);
    assert Under(tr, s, b, a);
    var c, d, c', d' := s.cvs[b].value, s.cvs[a].value, u.cvs[b].value, u.cvs[a].value;
    assert Even(c, c') && Even(d, d');
    assert At(c, tr[a].tid) == At(c', tr[a].tid);
    forall t: nat
      ensures At(c', t) <= At(d', t)
    {
      assert At(c, t) == At(c', t) && At(d, t) == At(d', t) && At(c, t) <= At(d, t);
    }
    MergeQuiet(tr, u, a, b);
    AlikeTrans(s, u, Merge(tr, u, a, b).0);
  }

  /** The state a quiet visit hands to the scan of the other threads. */
  ghost function Merged(tr: ScTrace, s: Vectors, a: nat, last: Option<nat>): (p: (Vectors, bool))
    requires a < |s.cvs| == |tr| && AllSet(s) && (last.Some? ==> last.value < |tr|)
    requires (tr[a].join.Some? ==> tr[a].join.value < |tr|) && (tr[a].read ==> tr[a].rf < |tr|)
    ensures |p.0.cvs| == |tr| && AllSet(p.0)
  {
    MergeKeeps(tr, s, a, last);
    var s1 := if last.Some? then Merge(tr, s, a, last.value).0 else s;
    MergeKeeps(tr, s1, a, tr[a].join);
    var s2 := if tr[a].join.Some? then Merge(tr, s1, a, tr[a].join.value).0 else s1;
    if tr[a].read then Merge(tr, s2, a, tr[a].rf) else (s2, false)
  }

  lemma VisitMerged(tr: ScTrace, s: Vectors, a: nat, last: Option<nat>, threads: nat)
    requires Complete(tr, threads) && a < |s.cvs| == |tr| && (last.Some? ==> last.value < |tr|) && AllSet(s)
    ensures (tr[a].join.Some? ==> tr[a].join.value < |tr|) && (tr[a].read ==> tr[a].rf < |tr|)
    ensures Grew(Merged(tr, s, a, last).0, Visit(tr, s, false, a, last, threads).0)
    ensures var p, v := Merged(tr, s, a, last), Visit(tr, s, false, a, last, threads);
            && (!tr[a].read ==> v.0 == p.0)
            && (tr[a].read && !v.1 ==>
                 !(p.1 && a < tr[a].rf) && v.0 == ReadThreads(tr, p.0, false, a, threads, 0).0
                   && !ReadThreads(tr, p.0, false, a, threads, 0).1)
  {
    hide Merge, Complete, ReadThreads;
    CompleteAt(tr, threads, a);
    var p := Merged(tr, s, a, last);
    NoStep(p.0, 0);
    GrewRefl(p.0);
    if tr[a].read {
      var flag := p.1 && a < tr[a].rf;
      if flag {
        ReadThreadsSticky(tr, p.0, a, threads, 0);
      }
      ReadThreadsStep(tr, p.0, false, a, threads, 0, p.0);
      ReadThreadsFlag(tr, p.0, a, threads, 0);
    }
  }

  /** The flag does not influence the clocks. */
  lemma {:induction false} ReadThreadsFlag(tr: ScTrace, s: Vectors, r: nat, threads: nat, t: nat)
    requires |s.cvs| == |tr| && r < |tr| && tr[r].rf < |tr| && t <= threads && AllSet(s)
    ensures ReadThreads(tr, s, true, r, threads, t).0 == ReadThreads(tr, s, false, r, threads, t).0
    decreases threads - t
  {
    hide ReadBack;
    if t < threads {
      if t == tr[r].tid || t == tr[tr[r].rf].tid {
        ReadThreadsFlag(tr, s, r, threads, t + 1);
      } else {
        var l := OnObject(tr, tr[r].loc, t, |tr|);
        ReadBackFlag(tr, s, r, l, |l|);
        ReadBackSets(tr, s, true, r, l, |l|);
        ReadBackSets(tr, s, false, r, l, |l|);
        ReadBackSticky(tr, s, r, l, |l|);
        var p := ReadBack(tr, s, false, r, l, |l|);
        ReadThreadsFlag(tr, p.0, r, threads, t + 1);
      }
    }
  }

  lemma {:induction false} ReadBackFlag(tr: ScTrace, s: Vectors, r: nat, l: seq<nat>, k: nat)
    requires |s.cvs| == |tr| && r < |tr| && tr[r].rf < |tr| && k <= |l| && Listed(tr, l) && AllSet(s)
    ensures ReadBack(tr, s, true, r, l, k).0 == ReadBack(tr, s, false, r, l, k).0
    decreases k
  {
    hide Merge;
    if k > 0 {
      var w2, w := l[k - 1], tr[r].rf;
      if !tr[w2].write {
        ReadBackFlag(tr, s, r, l, k - 1);
      } else {
        var p := if Since(s.cvs[w2].value, tr[w].tid, w) then Merge(tr, s, w2, r) else (s, false);
        MergeSets(tr, s, w2, r);
        if !Since(p.0.cvs[r].value, tr[w2].tid, w2) {
          ReadBackFlag(tr, p.0, r, l, k - 1);
        }
      }
    }
  }

  /** The orderings into a that merging looks at. */
  ghost predicate MergesOrder(tr: ScTrace, s: Vectors, a: nat, last: Option<nat>)
    requires a < |tr| == |s.cvs| && AllSet(s)
  {
    && (last.Some? && last.value < |tr| ==> Orders(tr, s, last.value, a))
    && (tr[a].join.Some? && tr[a].join.value < |tr| ==> Orders(tr, s, tr[a].join.value, a))
    && (tr[a].read && tr[a].rf < |tr| ==> Orders(tr, s, tr[a].rf, a))
  }

  lemma MergedQuiet(tr: ScTrace, s: Vectors, u: Vectors, a: nat, last: Option<nat>)
    requires a < |s.cvs| == |tr| && Alike(s, u) && !u.cyclic && Closed(tr, s, |tr|)
             && (last.Some? ==> Direct(tr, last.value, a))
    requires (tr[a].join.Some? ==> Direct(tr, tr[a].join.value, a)) && (tr[a].read ==> tr[a].rf < |tr| && tr[a].rf != a)
    requires var p := Merged(tr, u, a, last); !p.0.cyclic && (tr[a].read ==> !(p.1 && a < tr[a].rf))
    ensures AllSet(s) && MergesOrder(tr, s, a, last) && Alike(s, Merged(tr, u, a, last).0)
  {
    hide Merge, Alike, Orders, Closed, Direct;
    AlikeSet(s, u);
    if last.Some? {
      DirectEarlier(tr, last.value, a);
    }
    if tr[a].join.Some? {
      DirectEarlier(tr, tr[a].join.value, a);
    }
    MergeKeeps(tr, u, a, last);
    var u1 := if last.Some? then Merge(tr, u, a, last.value).0 else u;
    MergeKeeps(tr, u1, a, tr[a].join);
    var u2 := if tr[a].join.Some? then Merge(tr, u1, a, tr[a].join.value).0 else u1;
    if tr[a].read {
      MergeStep(tr, u2, a, tr[a].rf, 0);
    }
    if tr[a].join.Some? {
      MergeStep(tr, u1, a, tr[a].join.value, 0);
    }
    if last.Some? {
      UnderOrders(tr, s, u, last.value, a);
      OrdersEven(tr, s, u, last.value, a);
    }
    AlikeSet(s, u1);
    if tr[a].join.Some? {
      UnderOrders(tr, s, u1, tr[a].join.value, a);
      OrdersEven(tr, s, u1, tr[a].join.value, a);
    }
    AlikeSet(s, u2);
    if tr[a].read {
      var w := tr[a].rf;
      if w < a {
        ReadDirect(tr, a);
        UnderOrders(tr, s, u2, w, a);
      } else {
        MergeQuiet(tr, u2, a, w);
        AlikeTrans(s, u2, Merge(tr, u2, a, w).0);
      }
      OrdersEven(tr, s, u2, w, a);
    }
  }

  /** A quiet visit: what a follows is in, and the clocks stay. */
  lemma VisitQuietly(tr: ScTrace, s: Vectors, u: Vectors, a: nat, last: map<nat, nat>, threads: nat)
    requires Complete(tr, threads) && a < |tr| && Closed(tr, s, |tr|) && Alike(s, u) && !u.cyclic && Backward(tr)
             && ReadsOthers(tr)
    requires LastOk(tr, last) && Latest(tr, last, a) && |s.cvs| == |tr|
    requires Quiet(Visit(tr, u, false, a, LastAct(tr, last, a), threads))
    ensures AllSet(s) && MergesOrder(tr, s, a, LastAct(tr, last, a))
            && Alike(s, Visit(tr, u, false, a, LastAct(tr, last, a), threads).0)
    ensures ThreadUp(tr, s) && tr[a].read ==> tr[a].rf < |tr| && ThreadRules(tr, s, a, 0, threads)
  {
    hide Merge, Alike, Orders, Closed, Direct, ReadThreads, Visit, Latest, Complete, MergesOrder, ThreadUp, RulesAt;
    AlikeSet(s, u);
    CompleteAt(tr, threads, a);
    var l := LastAct(tr, last, a);
    if l.Some? {
      LastDirect(tr, last, a);
    }
    if tr[a].join.Some? {
      JoinDirect(tr, a);
    }
    VisitMerged(tr, u, a, l, threads);
    var p := Merged(tr, u, a, l);
    MergedQuiet(tr, s, u, a, l);
    AlikeSet(s, p.0);
    if tr[a].read {
      ReadStays(tr, s, p.0, a, threads);
      if ThreadUp(tr, s) {
        ThreadUpEven(tr, s, p.0);
        ReadThreadsQuiet(tr, p.0, a, threads, 0);
        forall w2: nat | Third(tr, a, w2) && 0 <= tr[w2].tid < threads
          ensures RulesAt(tr, s, a, w2)
        {
          RulesEven(tr, s, p.0, a, w2);
        }
      }
    }
  }

  lemma ReadStays(tr: ScTrace, s: Vectors, u: Vectors, r: nat, threads: nat)
    requires |s.cvs| == |tr| && Alike(s, u) && r < |tr| && tr[r].rf < |tr|
             && !ReadThreads(tr, u, false, r, threads, 0).1
    ensures Alike(s, ReadThreads(tr, u, false, r, threads, 0).0)
  {
    hide ReadThreads, Even;
    ReadThreadsStill(tr, u, false, r, threads, 0);
    StillSet(u, ReadThreads(tr, u, false, r, threads, 0).0);
    AlikeTrans(s, u, ReadThreads(tr, u, false, r, threads, 0).0);
  }

  /** Everything that a quiet pass from a on looks at is in; with growing threads, so are the rules. */
  lemma {:induction false} PassQuietly(tr: ScTrace, s: Vectors, u: Vectors, a: nat, last: map<nat, nat>, threads: nat)
    requires Complete(tr, threads) && a <= |tr| && Closed(tr, s, |tr|) && Alike(s, u) && !u.cyclic && Backward(tr)
             && ReadsOthers(tr)
    requires LastOk(tr, last) && Latest(tr, last, a) && |s.cvs| == |tr| == |u.cvs|
    requires Quiet(Pass(tr, u, false, a, last, threads))
    ensures AllSet(s)
    ensures forall b: nat, x: nat {:trigger Follows(tr, b, x)} :: Follows(tr, b, x) && a <= x ==> Orders(tr, s, b, x)
    ensures ThreadUp(tr, s) ==>
              forall r: nat, w2: nat {:trigger Third(tr, r, w2)} :: Third(tr, r, w2) && a <= r ==> RulesAt(tr, s, r, w2)
    decreases |tr| - a
  {
    hide Visit, Complete, Closed, Latest, Alike, Backward, ReadsOthers, Orders, RulesAt, ThreadUp;
    AlikeSet(s, u);
    if a < |tr| {
      CompleteAt(tr, threads, a);
      var l := LastAct(tr, last, a);
      var v := Visit(tr, u, false, a, l, threads);
      LatestNext(tr, last, a);
      var last' := last[tr[a].tid := a];
      if v.1 {
        PassSticky(tr, v.0, a + 1, last', threads);
      }
      PassCyclic(tr, v.0, v.1, a + 1, last', threads);
      VisitQuietly(tr, s, u, a, last, threads);
      PassQuietly(tr, s, v.0, a + 1, last', threads);
      forall b: nat, x: nat | Follows(tr, b, x) && a <= x
        ensures Orders(tr, s, b, x)
      {
        if x == a {
          FollowsMerged(tr, last, b, a);
        }
      }
      if ThreadUp(tr, s) {
        forall r: nat, w2: nat | Third(tr, r, w2) && a <= r
          ensures RulesAt(tr, s, r, w2)
        {
          CompleteAt(tr, threads, w2);
        }
      }
    }
  }

  lemma FollowsMerged(tr: ScTrace, last: map<nat, nat>, b: nat, a: nat)
    requires Latest(tr, last, a) && Follows(tr, b, a)
    ensures LastAct(tr, last, a) == Some(b) || tr[a].join == Some(b) || (tr[a].read && tr[a].rf == b)
  {
    if !tr[a].start && Previous(tr, b, a) {
      var m := last[tr[b].tid];
      assert b <= m < a && tr[m].tid == tr[a].tid;
    }
  }

  lemma {:induction false} PassCyclic(tr: ScTrace, s: Vectors, changed: bool, a: nat, last: map<nat, nat>, threads: nat)
    requires Complete(tr, threads) && a <= |s.cvs| == |tr| && LastOk(tr, last)
    ensures s.cyclic ==> Pass(tr, s, changed, a, last, threads).0.cyclic
    decreases |tr| - a
  {
    hide Visit, Complete;
    if a < |tr| {
      CompleteAt(tr, threads, a);
      var l := LastAct(tr, last, a);
      VisitCyclic(tr, s, changed, a, l, threads);
      var v := Visit(tr, s, changed, a, l, threads);
      PassCyclic(tr, v.0, v.1, a + 1, last[tr[a].tid := a], threads);
    }
  }

  lemma VisitCyclic(tr: ScTrace, s: Vectors, changed: bool, a: nat, last: Option<nat>, threads: nat)
    requires Complete(tr, threads) && a < |s.cvs| == |tr| && (last.Some? ==> last.value < |tr|)
    ensures s.cyclic ==> Visit(tr, s, changed, a, last, threads).0.cyclic
  {
    NoStep(s, 0);
    VisitStep(tr, s, false, a, last, threads, s);
    assert Visit(tr, s, changed, a, last, threads).0 == Visit(tr, s, false, a, last, threads).0;
  }
  // ----- the exact condition -----

  /** Where every action's clock takes in its predecessor's, clocks grow along threads. */
  lemma {:induction false} ThreadGrows(tr: ScTrace, s: Vectors, x: nat, y: nat)
    requires |s.cvs| == |tr| && AllSet(s) && Started(tr) && x < y < |tr| && tr[x].tid == tr[y].tid
    requires forall b: nat, a: nat {:trigger Follows(tr, b, a)} :: Follows(tr, b, a) ==> Orders(tr, s, b, a)
    ensures Leq(s.cvs[x].value, s.cvs[y].value)
    decreases y
  {
    hide Follows, Leq;
    assert !tr[y].start;
    var b := Predecessor(tr, x, y, y - 1);
    PreviousFollows(tr, b, y);
    assert Orders(tr, s, b, y);
    if x < b {
      ThreadGrows(tr, s, x, b);
      LeqTrans(s.cvs[x].value, s.cvs[b].value, s.cvs[y].value);
    }
  }

  lemma PreviousFollows(tr: ScTrace, b: nat, a: nat)
    requires a < |tr| && !tr[a].start && Previous(tr, b, a)
    ensures Follows(tr, b, a)
  {
  }

  lemma {:induction false} Predecessor(tr: ScTrace, x: nat, y: nat, n: nat) returns (b: nat)
    requires x <= n < y < |tr| && tr[x].tid == tr[y].tid
             && forall z {:trigger tr[z]} :: n < z < y ==> tr[z].tid != tr[y].tid
    ensures x <= b && Previous(tr, b, y)
    decreases n
  {
    if tr[n].tid == tr[y].tid {
      b := n;
    } else {
      b := Predecessor(tr, x, y, n - 1);
    }
  }

  /** A trace as the checker makes it: creations and joins look back, starts come first, reads observe others. */
  ghost predicate Regular(tr: ScTrace) {
    Backward(tr) && Started(tr) && ReadsOthers(tr)
  }

  /** When the passes stop, another finds nothing exactly if the computed clocks respect every rule. */
  lemma SettledExactlyIf(tr: ScTrace, s: Vectors, threads: nat)
    requires Complete(tr, threads) && |s.cvs| == |tr| && Bounded(s, threads) && Regular(tr)
    ensures var r := Computed(tr, s, true, threads); Settled(tr, r, threads) <==> IsOrder(tr, r)
  {
    hide Computed, Pass, Closed, Backward, Complete, Started, ReadsOthers, Alike, Orders, RulesAt, Bounded;
    var r := Computed(tr, s, true, threads);
    ComputedCloses(tr, s, true, threads);
    var u := r.(cyclic := false);
    AlikeRefl(r);
    NothingYet(tr, r);
    if Settled(tr, r, threads) {
      PassQuietly(tr, r, u, 0, map[], threads);
      forall x, y | 0 <= x < y < |tr| && tr[x].tid == tr[y].tid
        ensures Leq(r.cvs[x].value, r.cvs[y].value)
      {
        ThreadGrows(tr, r, x, y);
      }
      assert ThreadUp(tr, r);
    }
    if IsOrder(tr, r) {
      PassCalm(tr, r, u, 0, map[], threads);
    }
  }

  lemma OrderIsSolution(tr: ScTrace, s: Vectors)
    requires IsOrder(tr, s) && Own(tr, s)
    ensures IsSolution(tr, ClocksOf(s))
  {
    var c := ClocksOf(s);
    forall r: nat, w2: nat | Third(tr, r, w2)
      ensures AfterRule(tr, c, r, w2) && BeforeRule(tr, c, r, w2)
    {
      assert RulesAt(tr, s, r, w2);
    }
    forall b: nat, a: nat | Follows(tr, b, a)
      ensures Leq(c[b], c[a])
    {
      assert Orders(tr, s, b, a);
    }
  }

  /**
   * From unset clocks: another pass finds nothing exactly if what was computed is an order that respects every rule,
   * and then it is the least one, so that exactly what the trace entails has been found.
   */
  lemma SettledIsLeast(tr: ScTrace, threads: nat)
    requires Complete(tr, threads) && Regular(tr)
    ensures var r := Computed(tr, Unset(|tr|), true, threads);
            && (Settled(tr, r, threads) <==> IsOrder(tr, r))
            && (Settled(tr, r, threads) ==> IsSolution(tr, ClocksOf(r)))
            && forall c: seq<Clock> {:trigger IsSolution(tr, c)} :: IsSolution(tr, c) ==> Within(r, c)
  {
    hide Computed, Complete, Regular, IsOrder, Settled, IsSolution;
    var s := Unset(|tr|);
    var r := Computed(tr, s, true, threads);
    SettledExactlyIf(tr, s, threads);
    ComputedOwn(tr, s, true, threads);
    if Settled(tr, r, threads) {
      OrderIsSolution(tr, r);
    }
    forall c: seq<Clock> | IsSolution(tr, c)
      ensures Within(r, c)
    {
      SolutionLength(tr, c);
      ComputedWithin(tr, s, true, threads, c);
    }
  }

  lemma SolutionLength(tr: ScTrace, c: seq<Clock>)
    requires IsSolution(tr, c)
    ensures |c| == |tr|
  {
  }
}
