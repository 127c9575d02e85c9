/** What an order found by the search respects. */
module ScOrders {
  import opened Clocks
  import opened ScTheory
  import opened ScPasses
  import opened ScChoices
  import opened ScGeneration
  import opened ScSearch
  import opened ScFixpoint
  import HappensBefore
  import Relations

  // ----- the clocks of happens-before -----

  /** The threads of the actions. */
  function Tids(tr: ScTrace): (r: seq<nat>)
    ensures |r| == |tr| && forall a :: 0 <= a < |tr| ==> r[a] == tr[a].tid
  {
    seq(|tr|, a requires 0 <= a < |tr| => tr[a].tid)
  }

  /** Exact clocks of happens-before are such as the search relies on. */
  lemma ExactIsForward(tr: ScTrace, rel: Relations.Rel)
    requires HappensBefore.Exact(Tids(tr), HbOf(tr), rel)
    ensures HbForward(tr)
  {
    hide HappensBefore.Exact;
    forall a, t: nat | 0 <= a < |tr| && t != tr[a].tid
      ensures At(tr[a].hb, t) <= a
    {
      ExactKnows(tr, rel, a, t);
    }
  }

  lemma ExactKnows(tr: ScTrace, rel: Relations.Rel, a: nat, t: nat)
    requires HappensBefore.Exact(Tids(tr), HbOf(tr), rel) && a < |tr| && t != tr[a].tid
    ensures At(tr[a].hb, t) <= a
  {
    hide Relations.Reach;
    var tids, cvs := Tids(tr), HbOf(tr);
    assert HappensBefore.Genuine(tids, cvs[a]);
    if At(cvs[a], t) > 0 {
      var b := At(cvs[a], t) - 1;
      assert HappensBefore.Hb(tids, cvs, b, a);
      HappensBefore.ForwardReach(rel, |tids|, b, a);
    }
  }

  // ----- a choice does not close a cycle by itself -----

  /** None of these actions is before act according to its clock. */
  ghost predicate Ahead(tr: ScTrace, s: Vectors, act: nat, l: seq<nat>)
    requires act < |tr| == |s.cvs| && AllSet(s)
  {
    forall j {:trigger l[j]} ::
      0 <= j < |l| ==> l[j] < |tr| && l[j] != act && !Since(s.cvs[act].value, tr[l[j]].tid, l[j])
  }

  lemma {:induction false} AfterActCalm(tr: ScTrace, s: Vectors, act: nat, l: seq<nat>, k: nat)
    requires act < |tr| == |s.cvs| && k <= |l| && AllSet(s) && Ahead(tr, s, act, l)
    ensures AfterAct(tr, s, act, l, k).0.cyclic == s.cyclic && AfterAct(tr, s, act, l, k).0.cvs[act] == s.cvs[act]
    decreases |l| - k
  {
    if k < |l| {
      AfterActCalm(tr, s, act, l, k + 1);
    }
  }

  lemma {:induction false} UpdateCalm(tr: ScTrace, lists: Lists, s: Vectors, changed: bool, act: nat, i: nat)
    requires act < |tr| == |s.cvs| && ListsIn(tr, lists) && AllSet(s) && i <= |lists|
    requires forall t {:trigger lists[t]} :: 0 <= t < |lists| && t != tr[act].tid ==> Ahead(tr, s, act, lists[t])
    ensures UpdateConstraints(tr, lists, s, changed, act, i).0.cyclic == s.cyclic
    decreases |lists| - i
  {
    if i < |lists| {
      if i == tr[act].tid {
        UpdateCalm(tr, lists, s, changed, act, i + 1);
      } else {
        var p := AfterAct(tr, s, act, lists[i], 0);
        AfterActCalm(tr, s, act, lists[i], 0);
        UpdateCalm(tr, lists, p.0, changed || p.1, act, i + 1);
      }
    }
  }

  /** What is left of other threads is not before a candidate that the clocks chose. */
  lemma CandidateAhead(tr: ScTrace, threads: nat, g: Gen, a: nat, t: nat)
    requires GenOk(tr, threads, g) && ClocksDecide(tr, threads, g) && a in Candidates(tr, threads, g)
    requires t < |g.lists| && a < |tr| && t != tr[a].tid
    ensures Ahead(tr, g.s, a, g.lists[t])
  {
    Fronts(tr, g.lists);
    ReadyFree(tr, g.lists, ClocksOf(g.s), 0);
    var l := g.lists[t];
    assert ListOk(tr, l, t) && Increasing(l);
    forall j | 0 <= j < |l|
      ensures l[j] < |tr| && l[j] != a && !Since(g.s.cvs[a].value, tr[l[j]].tid, l[j])
    {
      if Since(g.s.cvs[a].value, t, l[j]) {
        LeftBlocks(g.lists, g.s.cvs[a].value, tr[a].tid, t, j);
      }
    }
  }

  /** While the clocks decide, only a break meets the first cycle. */
  lemma OnlyBreaks(tr: ScTrace, threads: nat, g: Gen, a: nat)
    requires Complete(tr, threads) && GenOk(tr, threads, g) && ClocksDecide(tr, threads, g)
             && a in Candidates(tr, threads, g)
    requires IsFront(tr, g.lists, a) && !g.s.cyclic && Taken(tr, threads, g, a).s.cyclic
    ensures Broke(tr, threads, g, a)
  {
    hide Computed, UpdateConstraints, Complete, Bounded, Split, ClocksDecide, Candidates, Ahead;
    PopOk(tr, g.lists, a);
    var lists := Pop(g.lists, tr[a].tid);
    forall t | 0 <= t < |lists| && t != tr[a].tid
      ensures Ahead(tr, g.s, a, lists[t])
    {
      CandidateAhead(tr, threads, g, a, t);
    }
    UpdateCalm(tr, lists, g.s, false, a, 0);
  }

  // ----- whole runs -----

  /** The clocks decide at every step. */
  ghost predicate NoFallback(tr: ScTrace, threads: nat, plan: seq<nat>)
    requires Complete(tr, threads)
  {
    forall n: nat {:trigger RunTo(tr, threads, plan, n)} ::
      n < |tr| ==> ClocksDecide(tr, threads, RunTo(tr, threads, plan, n))
  }

  /** The candidate a run takes at a step. */
  ghost function StepIndex(tr: ScTrace, threads: nat, plan: seq<nat>, n: nat): (k: nat)
    requires Complete(tr, threads) && Candidates(tr, threads, RunTo(tr, threads, plan, n)) != []
    ensures var g := RunTo(tr, threads, plan, n);
            k < |Candidates(tr, threads, g)|
              && Candidates(tr, threads, g)[k] == Picked(tr, threads, g, Choice(plan, g.used))
  {
    var g := RunTo(tr, threads, plan, n);
    var a := Picked(tr, threads, g, Choice(plan, g.used));
    PickedIn(tr, threads, g, Choice(plan, g.used));
    var k: nat :| k < |Candidates(tr, threads, g)| && Candidates(tr, threads, g)[k] == a;
    k
  }

  lemma PickedIn(tr: ScTrace, threads: nat, g: Gen, choice: nat)
    requires GenOk(tr, threads, g) && Candidates(tr, threads, g) != []
    ensures Picked(tr, threads, g, choice) in Candidates(tr, threads, g)
  {
    hide Candidates, ListsOk, Split;
  }

  /** A run without breaks in which the clocks decide stays free of cycles, if it starts so. */
  lemma {:induction false} StaysAcyclic(tr: ScTrace, threads: nat, plan: seq<nat>, n: nat)
    requires Complete(tr, threads) && n <= |tr| && NoFallback(tr, threads, plan) && !Breaks(tr, threads, plan)
    requires !Start(tr, threads).s.cyclic
    ensures !RunTo(tr, threads, plan, n).s.cyclic
    decreases n
  {
    hide Complete, GenOk, Taken, Candidates, Picked, Start, Advance, ClocksDecide, BreaksAt, Broke;
    if n > 0 {
      StaysAcyclic(tr, threads, plan, n - 1);
      var g := RunTo(tr, threads, plan, n - 1);
      if Candidates(tr, threads, g) == [] {
        NoAdvance(tr, threads, g, plan);
      } else {
        NextRun(tr, threads, plan, n - 1);
        PickedIn(tr, threads, g, Choice(plan, g.used));
        var a := Picked(tr, threads, g, Choice(plan, g.used));
        if Taken(tr, threads, g, a).s.cyclic {
          OnlyBreaks(tr, threads, g, a);
        }
      }
    }
  }

  lemma NoAdvance(tr: ScTrace, threads: nat, g: Gen, plan: seq<nat>)
    requires Complete(tr, threads) && GenOk(tr, threads, g) && Candidates(tr, threads, g) == []
    ensures Advance(tr, threads, g, plan) == g
  {
  }

  lemma OutStep(tr: ScTrace, threads: nat, plan: seq<nat>, n: nat)
    requires Complete(tr, threads)
    ensures RunTo(tr, threads, plan, n).out <= RunTo(tr, threads, plan, n + 1).out
  {
    hide Complete, GenOk, Taken, Candidates, Picked, RunTo;
    if Candidates(tr, threads, RunTo(tr, threads, plan, n)) == [] {
      StuckLength(tr, threads, plan, n);
    } else {
      NextRun(tr, threads, plan, n);
    }
  }

  /** Steps only add to the order. */
  lemma {:induction false} OutGrows(tr: ScTrace, threads: nat, plan: seq<nat>, m: nat, n: nat)
    requires Complete(tr, threads) && m <= n
    ensures RunTo(tr, threads, plan, m).out <= RunTo(tr, threads, plan, n).out
    decreases n
  {
    hide Complete, GenOk, RunTo;
    if m < n {
      OutGrows(tr, threads, plan, m, n - 1);
      OutStep(tr, threads, plan, n - 1);
    }
  }

  /** A full order has a candidate at every step, and emits it there. */
  lemma EmittedAt(tr: ScTrace, threads: nat, plan: seq<nat>, n: nat)
    requires Complete(tr, threads) && n < |tr| && |RunTo(tr, threads, plan, |tr|).out| == |tr|
    ensures Candidates(tr, threads, RunTo(tr, threads, plan, n)) != []
    ensures |RunTo(tr, threads, plan, n).out| == n
    ensures var arr := Candidates(tr, threads, RunTo(tr, threads, plan, n));
            RunTo(tr, threads, plan, |tr|).out[n] == arr[StepIndex(tr, threads, plan, n)]
  {
    hide Complete, GenOk, Taken, Candidates, Picked, Start, Advance, RunTo, StepIndex;
    OutLength(tr, threads, plan, n + 1, |tr|);
    OutLength(tr, threads, plan, n, |tr|);
    var g := RunTo(tr, threads, plan, n);
    if Candidates(tr, threads, g) == [] {
      StuckLength(tr, threads, plan, n);
    }
    NextRun(tr, threads, plan, n);
    OutGrows(tr, threads, plan, n + 1, |tr|);
  }

  lemma StuckLength(tr: ScTrace, threads: nat, plan: seq<nat>, n: nat)
    requires Complete(tr, threads) && Candidates(tr, threads, RunTo(tr, threads, plan, n)) == []
    ensures RunTo(tr, threads, plan, n + 1).out == RunTo(tr, threads, plan, n).out
  {
    hide Complete, GenOk, Candidates;
    assert RunTo(tr, threads, plan, n + 1) == Advance(tr, threads, RunTo(tr, threads, plan, n), plan);
    NoAdvance(tr, threads, RunTo(tr, threads, plan, n), plan);
  }

  /** A run that has emitted as many actions as steps did so all along. */
  lemma {:induction false} OutLength(tr: ScTrace, threads: nat, plan: seq<nat>, m: nat, n: nat)
    requires Complete(tr, threads) && m <= n && |RunTo(tr, threads, plan, n).out| == n
    ensures |RunTo(tr, threads, plan, m).out| == m
    decreases n
  {
    hide Complete, GenOk, Candidates, Start, AtChoice, Advance;
    if m < n {
      assert |RunTo(tr, threads, plan, n).out| <= |RunTo(tr, threads, plan, n - 1).out| + 1;
      OutLength(tr, threads, plan, m, n - 1);
    }
  }

  /**
   * An order found without a break, and with the clocks deciding, puts every action after all that program
   * order, thread creation, joins and reading put before it.
   */
  lemma OrderRespects(tr: ScTrace, threads: nat, plan: seq<nat>, n: nat, p: seq<nat>)
    requires Complete(tr, threads) && NoFallback(tr, threads, plan) && !Breaks(tr, threads, plan)
    requires !Start(tr, threads).s.cyclic && Interleaving(tr, RunTo(tr, threads, plan, |tr|).out)
    requires n < |tr| && Path(tr, p) && |p| > 1 && p[|p| - 1] == RunTo(tr, threads, plan, |tr|).out[n]
    ensures p[0] in RunTo(tr, threads, plan, |tr|).out[..n]
  {
    hide Complete, GenOk, Candidates, Start, RunTo, Path, ClocksDecide, Breaks, StepIndex, Ordered;
    EmittedAt(tr, threads, plan, n);
    StaysAcyclic(tr, threads, plan, n);
    var k := StepIndex(tr, threads, plan, n);
    RunRespects(tr, threads, plan, n, k, p);
    OutGrows(tr, threads, plan, n, |tr|);
    assert RunTo(tr, threads, plan, n).out == RunTo(tr, threads, plan, |tr|).out[..n];
  }
}
