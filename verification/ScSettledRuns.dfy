/** Traces on which every run without a cycle is settled: conditions on the trace alone. */
module ScSettledRuns {
  import opened ScTheory
  import opened ScPasses
  import opened ScChoices
  import opened ScGeneration
  import opened ScSearch
  import opened ScFixpoint
  import opened ScSolutions
  import opened ScSettled
  import opened ScLate
  import opened ScTraces
  import opened ScRoutes
  import opened ScOrders
  import opened ScRespected
  import opened Relations

  // ----- a choice, where third writes are late -----

  /** Whatever a choice put first is in the clock of what it put after. */
  ghost predicate ForcedIn(tr: ScTrace, out: seq<nat>, s: Vectors) {
    forall b: nat, a: nat {:trigger Chosen(tr, out, b, a)} :: Chosen(tr, out, b, a) ==> InClock(s, b, a)
  }

  ghost predicate LateInv(tr: ScTrace, out: seq<nat>, s: Vectors) {
    Forward(tr, out, s) && ForcedIn(tr, out, s)
  }

  /** From s to s', emitted clocks stay, names stay emitted, and what newly names act has its clock. */
  ghost predicate PutAfter(tr: ScTrace, done: seq<nat>, s: Vectors, s': Vectors, act: nat)
    requires act < |tr|
  {
    && Grew(s, s') && Forward(tr, done, s')
    && (forall x {:trigger x in done} :: x in done && x < |s.cvs| ==> s'.cvs[x] == s.cvs[x])
    && (forall z: nat {:trigger InClock(s', act, z)} :: Named(s', z, tr[act].tid, act) ==>
          Named(s, z, tr[act].tid, act) || InClock(s', act, z))
  }

  lemma PutRefl(tr: ScTrace, done: seq<nat>, s: Vectors, act: nat)
    requires act < |tr| && Forward(tr, done, s)
    ensures PutAfter(tr, done, s, s, act)
  {
    GrewRefl(s);
  }

  lemma PutTrans(tr: ScTrace, done: seq<nat>, s: Vectors, s': Vectors, s'': Vectors, act: nat)
    requires act < |tr| && act in done && PutAfter(tr, done, s, s', act) && PutAfter(tr, done, s', s'', act)
    ensures PutAfter(tr, done, s, s'', act)
  {
    hide Leq, Forward;
    GrewTrans(s, s', s'');
    forall z: nat | Named(s'', z, tr[act].tid, act)
      ensures Named(s, z, tr[act].tid, act) || InClock(s'', act, z)
    {
      if !InClock(s'', act, z) && !Named(s, z, tr[act].tid, act) {
        assert Named(s', z, tr[act].tid, act) && InClock(s', act, z);
        LeqTrans(s'.cvs[act].value, s'.cvs[z].value, s''.cvs[z].value);
      }
    }
  }

  lemma MergePut(tr: ScTrace, done: seq<nat>, s: Vectors, act: nat, z: nat)
    requires act < |tr| == |s.cvs| && z < |tr| && AllSet(s) && Forward(tr, done, s) && NamesOnly(tr, done, s, act)
             && act in done && z !in done
    ensures PutAfter(tr, done, s, Merge(tr, s, z, act).0, act)
  {
    hide Forward, NamesOnly;
    MergeForward(tr, done, s, z, act);
    MergeStep(tr, s, z, act, 0);
  }

  lemma {:induction false} AfterActPut(tr: ScTrace, done: seq<nat>, s: Vectors, act: nat, l: seq<nat>, k: nat)
    requires act < |tr| == |s.cvs| && k <= |l| && Listed(tr, l) && AllSet(s) && Forward(tr, done, s)
             && NamesOnly(tr, done, s, act) && act in done
    requires forall j {:trigger l[j]} :: 0 <= j < |l| ==> l[j] !in done
    ensures PutAfter(tr, done, s, AfterAct(tr, s, act, l, k).0, act)
    decreases |l| - k
  {
    hide Forward, NamesOnly, PutAfter, Merge;
    PutRefl(tr, done, s, act);
    if k < |l| {
      MergePut(tr, done, s, act, l[k]);
      AfterActPut(tr, done, s, act, l, k + 1);
    }
  }

  lemma PutOnly(tr: ScTrace, done: seq<nat>, s: Vectors, s': Vectors, act: nat)
    requires act < |tr| == |s.cvs| && act in done && PutAfter(tr, done, s, s', act) && NamesOnly(tr, done, s, act)
    ensures NamesOnly(tr, done, s', act) && Forward(tr, done, s')
  {
    hide Forward, Leq;
    forall y: nat | y < |tr| && Named(s', act, tr[y].tid, y)
      ensures y in done
    {
      assert s'.cvs[act] == s.cvs[act];
      assert Named(s, act, tr[y].tid, y);
    }
  }

  lemma {:induction false} UpdatePut(tr: ScTrace, done: seq<nat>, lists: Lists, s: Vectors, changed: bool, act: nat,
                                     i: nat)
    requires act < |tr| == |s.cvs| && ListsIn(tr, lists) && AllSet(s) && i <= |lists| && Forward(tr, done, s)
             && NamesOnly(tr, done, s, act) && act in done
    requires forall t, j {:trigger lists[t][j]} :: 0 <= t < |lists| && 0 <= j < |lists[t]| ==> lists[t][j] !in done
    ensures PutAfter(tr, done, s, UpdateConstraints(tr, lists, s, changed, act, i).0, act)
    decreases |lists| - i
  {
    hide Forward, NamesOnly, PutAfter, AfterAct;
    PutRefl(tr, done, s, act);
    if i < |lists| {
      if i == tr[act].tid {
        UpdatePut(tr, done, lists, s, changed, act, i + 1);
      } else {
        var p := AfterAct(tr, s, act, lists[i], 0);
        AfterActPut(tr, done, s, act, lists[i], 0);
        PutOnly(tr, done, s, p.0, act);
        UpdatePut(tr, done, lists, p.0, changed || p.1, act, i + 1);
        PutTrans(tr, done, s, p.0, UpdateConstraints(tr, lists, p.0, changed || p.1, act, i + 1).0, act);
      }
    }
  }

  /** The clocks after the choice, before the passes. */
  ghost function ChoiceMade(tr: ScTrace, threads: nat, g: Gen, a: nat): (s: Vectors)
    requires Complete(tr, threads) && GenOk(tr, threads, g) && IsFront(tr, g.lists, a)
  {
    PopOk(tr, g.lists, a);
    UpdateConstraints(tr, Pop(g.lists, tr[a].tid), g.s, false, a, 0).0
  }

  lemma ForwardMore(tr: ScTrace, done: seq<nat>, a: nat, s: Vectors)
    requires Forward(tr, done, s)
    ensures Forward(tr, done + [a], s)
  {
  }

  lemma ChoicePuts(tr: ScTrace, threads: nat, g: Gen, a: nat)
    requires Steady(tr, threads, g, a) && LateInv(tr, g.out, g.s)
    ensures PutAfter(tr, g.out + [a], g.s, ChoiceMade(tr, threads, g, a), a)
  {
    hide Complete, IsOrder, Respects, Backed, Own, Started, ClocksDecide, Candidates, Forward, ForcedIn, PutAfter,
         UpdateConstraints, Split, Bounded;
    var done := g.out + [a];
    ForwardMore(tr, g.out, a, g.s);
    forall y: nat | y < |tr| && Named(g.s, a, tr[y].tid, y)
      ensures y in done
    {
      NamedEmitted(tr, threads, g, a, y);
    }
    PopOk(tr, g.lists, a);
    PoppedLeft(tr, g, a);
    UpdatePut(tr, done, Pop(g.lists, tr[a].tid), g.s, false, a, 0);
  }

  lemma PutSame(tr: ScTrace, done: seq<nat>, s: Vectors, s': Vectors, act: nat, b: nat, x: nat)
    requires act < |tr| && PutAfter(tr, done, s, s', act) && b in done && InClock(s, b, x)
    ensures InClock(s', b, x)
  {
    hide Leq;
    LeqTrans(s.cvs[b].value, s.cvs[x].value, s'.cvs[x].value);
  }

  lemma OrdersIn(tr: ScTrace, s: Vectors, b: nat, a: nat)
    requires a < |tr| == |s.cvs| && b < |tr| && AllSet(s) && Orders(tr, s, b, a)
    ensures InClock(s, b, a)
  {
  }

  lemma PutNames(tr: ScTrace, done: seq<nat>, s: Vectors, s': Vectors, act: nat, x: nat, t: nat, y: nat)
    requires act < |tr| && PutAfter(tr, done, s, s', act) && x in done && Named(s', x, t, y)
    ensures Named(s, x, t, y)
  {
  }

  /** After the choice, a write to come of the location has the action in some clock up to it. */
  lemma PutLeft(tr: ScTrace, threads: nat, g: Gen, a: nat, x: nat)
    requires Steady(tr, threads, g, a) && LateInv(tr, g.out, g.s) && x < |tr| && x !in g.out + [a]
    requires tr[x].write && tr[x].loc == tr[a].loc && tr[x].tid != tr[a].tid
    ensures LeftAfter(tr, ChoiceMade(tr, threads, g, a), a, x)
  {
    hide Complete, IsOrder, Respects, Backed, Own, Started, ClocksDecide, Candidates, LateInv, UpdateConstraints,
         Bounded, Leq, Ordered, After;
    var s0, t := ChoiceMade(tr, threads, g, a), tr[x].tid;
    assert Somewhere(tr, g.lists, g.out, x);
    var l := g.lists[t];
    var j :| 0 <= j < |l| && l[j] == x;
    ChoiceMarks(tr, threads, g, a, t, j);
    var i: nat :| i <= j && i < |l| && Named(s0, l[i], tr[a].tid, a);
    var z := l[i];
    assert ListOk(tr, l, t) && Increasing(l);
    ChoicePuts(tr, threads, g, a);
    if !InClock(s0, a, z) {
      CandidateNew(tr, threads, g, a);
      NamedUp(tr, threads, g, z, a);
      PutSame(tr, g.out + [a], g.s, s0, a, a, z);
    }
  }

  lemma FirmDirectNow(tr: ScTrace, threads: nat, g: Gen, a: nat)
    requires Steady(tr, threads, g, a) && LateInv(tr, g.out, g.s) && Regular(tr)
    ensures FirmDirect(tr, g.out + [a], ChoiceMade(tr, threads, g, a))
  {
    hide Complete, Respects, Backed, Own, Started, ClocksDecide, Candidates, LateInv, GenOk, PutAfter, Orders, RulesAt,
         ChoiceMade, InClock;
    var done, s0 := g.out + [a], ChoiceMade(tr, threads, g, a);
    ChoicePuts(tr, threads, g, a);
    RegularFollows(tr, a);
    TakenFollows(tr, threads, g, a);
    forall b: nat, x: nat | Direct(tr, b, x) && x in done
      ensures b in done && InClock(s0, b, x)
    {
      assert Follows(tr, b, x);
      assert Precedes(done, b, x);
      OrdersIn(tr, g.s, b, x);
      PutSame(tr, done, g.s, s0, a, b, x);
    }
  }

  lemma FirmAfterNow(tr: ScTrace, threads: nat, g: Gen, a: nat)
    requires Steady(tr, threads, g, a) && LateInv(tr, g.out, g.s)
    ensures FirmAfter(tr, g.out + [a], ChoiceMade(tr, threads, g, a))
  {
    hide Complete, Respects, Backed, Own, Started, ClocksDecide, Candidates, LateInv, GenOk, PutAfter, Orders, Follows,
         ChoiceMade, InClock;
    var done, s0 := g.out + [a], ChoiceMade(tr, threads, g, a);
    ChoicePuts(tr, threads, g, a);
    TakenPastNow(tr, threads, g, a);
    forall r: nat, w2: nat | Third(tr, r, w2) && w2 in done && Named(s0, w2, tr[tr[r].rf].tid, tr[r].rf)
      ensures r in done && InClock(s0, r, w2)
    {
      PutNames(tr, done, g.s, s0, a, w2, tr[tr[r].rf].tid, tr[r].rf);
      assert RulesAt(tr, g.s, r, w2);
      NamesRead(tr, g.s, r, w2);
      assert Named(g.s, w2, tr[r].tid, r);
      assert Precedes(done, r, w2);
      OrdersIn(tr, g.s, r, w2);
      PutSame(tr, done, g.s, s0, a, r, w2);
    }
  }

  /** Of two emitted writes, the third one before a read that is still to come was chosen first. */
  lemma ThirdChosen(tr: ScTrace, threads: nat, g: Gen, a: nat, r: nat, w2: nat)
    requires Steady(tr, threads, g, a) && Third(tr, r, w2) && w2 in g.out + [a] && r !in g.out + [a]
             && (tr[r].rf in g.out + [a] || w2 != a)
    ensures w2 in g.out && Chosen(tr, g.out, w2, tr[r].rf)
  {
    hide Complete, Backed, Started, Candidates, Follows, Past, FollowsFirst, GenOk, ClocksDecide, Chosen, Forced,
         IsOrder,
         Own;
    var w, done := tr[r].rf, g.out + [a];
    CompleteRead(tr, threads, r);
    CandidateNew(tr, threads, g, a);
    TakenThird(tr, threads, g, a);
    assert !Precedes(done, w, w2);
    PrecedesEnd(g.out, a, w, w2);
    assert w2 != a;
    ChosenElse(tr, g.out, w2, w);
  }

  lemma FirmBeforeNow(tr: ScTrace, threads: nat, g: Gen, a: nat)
    requires Steady(tr, threads, g, a) && LateInv(tr, g.out, g.s)
    ensures FirmBefore(tr, g.out + [a], ChoiceMade(tr, threads, g, a))
  {
    hide Complete, Respects, Backed, Own, Started, ClocksDecide, Candidates, GenOk, PutAfter, Orders, Follows,
         ChoiceMade,
         Forward, InClock, Chosen;
    var done, s0 := g.out + [a], ChoiceMade(tr, threads, g, a);
    ChoicePuts(tr, threads, g, a);
    forall r: nat, w2: nat | Third(tr, r, w2) && w2 in done && tr[r].rf in done
        && (r in done ==> Named(s0, r, tr[w2].tid, w2))
      ensures InClock(s0, w2, tr[r].rf)
    {
      var w := tr[r].rf;
      if r in done {
        PutNames(tr, done, g.s, s0, a, r, tr[w2].tid, w2);
        assert RulesAt(tr, g.s, r, w2);
        OrdersIn(tr, g.s, w2, w);
      } else {
        ThirdChosen(tr, threads, g, a, r, w2);
      }
      PutSame(tr, done, g.s, s0, a, w2, w);
    }
  }

  lemma FirmLeftNow(tr: ScTrace, threads: nat, g: Gen, a: nat)
    requires Steady(tr, threads, g, a) && LateInv(tr, g.out, g.s) && Regular(tr)
    ensures FirmLeft(tr, g.out + [a], ChoiceMade(tr, threads, g, a))
  {
    hide Complete, Backed, Own, Started, ClocksDecide, Candidates, GenOk, PutAfter, IsOrder, ChoiceMade, Forward,
         InClock,
         Chosen, Past, Forced, ThirdFirst;
    var done, s0 := g.out + [a], ChoiceMade(tr, threads, g, a);
    ChoicePuts(tr, threads, g, a);
    RegularFollows(tr, a);
    TakenFollows(tr, threads, g, a);
    forall r: nat, w2: nat | Third(tr, r, w2) && w2 in done && tr[r].rf !in done
      ensures LeftAfter(tr, s0, w2, tr[r].rf)
    {
      var w := tr[r].rf;
      CompleteRead(tr, threads, r);
      if w2 == a {
        PutLeft(tr, threads, g, a, w);
      } else {
        assert r !in done by {
          assert Follows(tr, w, r);
        }
        ThirdChosen(tr, threads, g, a, r, w2);
        PutSame(tr, done, g.s, s0, a, w2, w);
      }
    }
  }

  /** The choice leaves clocks from which the passes change nothing that has been emitted. */
  lemma ChoiceMild(tr: ScTrace, threads: nat, g: Gen, a: nat)
    requires Steady(tr, threads, g, a) && LateInv(tr, g.out, g.s) && Regular(tr) && AllLate(tr)
    ensures var s0 := ChoiceMade(tr, threads, g, a); Mild(tr, Late(g.out + [a], s0), s0)
  {
    hide Complete, IsOrder, Respects, Backed, Own, Started, ClocksDecide, Candidates, LateInv, AllLate, FirmDirect,
         FirmAfter, FirmBefore, FirmLeft, Forward, ChoiceMade, Regular, Split;
    var done, s0 := g.out + [a], ChoiceMade(tr, threads, g, a);
    FirmDirectNow(tr, threads, g, a);
    FirmAfterNow(tr, threads, g, a);
    FirmBeforeNow(tr, threads, g, a);
    FirmLeftNow(tr, threads, g, a);
    ChoicePuts(tr, threads, g, a);
    CandidateNew(tr, threads, g, a);
    GrewRefl(s0);
    assert forall x :: x in done ==> x < |tr| by { EmittedIn(tr, threads, g, a); }
    MadeSet(tr, threads, g, a);
    forall x | x in done
      ensures FrozenAt(s0, s0, x)
    {
      LeqSelf(s0.cvs[x].value);
    }
  }

  lemma EmittedIn(tr: ScTrace, threads: nat, g: Gen, a: nat)
    requires GenOk(tr, threads, g) && a < |tr|
    ensures forall x :: x in g.out + [a] ==> x < |tr|
  {
  }

  lemma MadeSet(tr: ScTrace, threads: nat, g: Gen, a: nat)
    requires Complete(tr, threads) && GenOk(tr, threads, g) && IsFront(tr, g.lists, a)
    ensures var s0 := ChoiceMade(tr, threads, g, a); |s0.cvs| == |tr| && AllSet(s0) && Bounded(s0, threads)
  {
    hide UpdateConstraints, Bounded, Complete;
    PopOk(tr, g.lists, a);
    UpdateStep(tr, Pop(g.lists, tr[a].tid), g.s, false, a, 0, threads);
  }

  /** The clocks after taking are the passes' result, or those of the choice if it changed nothing. */
  lemma TakenFrom(tr: ScTrace, threads: nat, g: Gen, a: nat)
    requires Complete(tr, threads) && GenOk(tr, threads, g) && IsFront(tr, g.lists, a)
    ensures var s0, f := ChoiceMade(tr, threads, g, a), Taken(tr, threads, g, a).s;
            && |s0.cvs| == |tr| && Bounded(s0, threads)
            && (f == Computed(tr, s0, true, threads) || f == s0 == g.s)
  {
    hide UpdateConstraints, Bounded, Complete, Computed, Split;
    MadeSet(tr, threads, g, a);
    var lists := Pop(g.lists, tr[a].tid);
    PopOk(tr, g.lists, a);
    if !UpdateConstraints(tr, lists, g.s, false, a, 0).1 {
      UpdateSame(tr, lists, g.s, false, a, 0);
    }
  }

  /** Taking a candidate: a cycle, or settled clocks with the same invariant. */
  lemma LateTaken(tr: ScTrace, threads: nat, g: Gen, a: nat)
    requires Steady(tr, threads, g, a) && LateInv(tr, g.out, g.s) && Regular(tr) && AllLate(tr) && ReadsBack(tr)
    ensures var f := Taken(tr, threads, g, a).s; f.cyclic || (IsOrder(tr, f) && LateInv(tr, g.out + [a], f))
  {
    hide Complete, IsOrder, Respects, Backed, Own, Started, ClocksDecide, Candidates, LateInv, AllLate, ChoiceMade,
         Regular,
         ReadsBack, Computed, Taken, Bounded, GenOk, Mild, Void;
    var done, s0, f := g.out + [a], ChoiceMade(tr, threads, g, a), Taken(tr, threads, g, a).s;
    var mode := Late(done, s0);
    ChoiceMild(tr, threads, g, a);
    TakenFrom(tr, threads, g, a);
    if f == Computed(tr, s0, true, threads) {
      ComputedFinds(tr, s0, true, threads, mode);
      NotVoid(mode, f);
    }
    if !f.cyclic {
      LateGoesOn(tr, threads, g, a, f);
    }
  }

  lemma NotVoid(mode: Mode, s: Vectors)
    ensures Void(mode, s) ==> s.cyclic
  {
  }

  lemma LateGoesOn(tr: ScTrace, threads: nat, g: Gen, a: nat, f: Vectors)
    requires Steady(tr, threads, g, a) && LateInv(tr, g.out, g.s) && IsOrder(tr, f)
             && Mild(tr, Late(g.out + [a], ChoiceMade(tr, threads, g, a)), f)
    ensures LateInv(tr, g.out + [a], f)
  {
    hide Complete, IsOrder, Respects, Backed, Own, Started, ClocksDecide, Candidates, ChoiceMade, GenOk, Forward,
         Leq, Firm, AllLate, PutAfter, LeftAfter;
    var done, s0 := g.out + [a], ChoiceMade(tr, threads, g, a);
    ChoicePuts(tr, threads, g, a);
    forall b: nat, x: nat | Chosen(tr, done, b, x)
      ensures InClock(f, b, x)
    {
      var i :| 0 <= i < |done| && done[i] == b && x !in done[..i];
      assert b in done;
      assert FrozenAt(s0, f, b);
      if i < |g.out| {
        assert done[..i] == g.out[..i] && g.out[i] == b;
        assert Chosen(tr, g.out, b, x);
        PutSame(tr, done, g.s, s0, a, b, x);
        FrozenIn(s0, f, b, x);
      } else {
        assert done[..i] == g.out;
        PutLeft(tr, threads, g, a, x);
        LeftIn(tr, s0, f, a, x);
      }
    }
  }

  lemma FrozenIn(s0: Vectors, f: Vectors, b: nat, x: nat)
    requires FrozenAt(s0, f, b) && InClock(s0, b, x) && Grew(s0, f)
    ensures InClock(f, b, x)
  {
    hide Leq;
    LeqTrans(f.cvs[b].value, s0.cvs[b].value, s0.cvs[x].value);
    LeqTrans(f.cvs[b].value, s0.cvs[x].value, f.cvs[x].value);
  }

  lemma LeftIn(tr: ScTrace, s0: Vectors, f: Vectors, a: nat, x: nat)
    requires LeftAfter(tr, s0, a, x) && FrozenAt(s0, f, a) && Grew(s0, f) && IsOrder(tr, f) && Started(tr)
    ensures InClock(f, a, x)
  {
    hide Leq, Started, RulesAt, Orders;
    var z: nat :| z <= x < |tr| && tr[z].tid == tr[x].tid && InClock(s0, a, z);
    FrozenIn(s0, f, a, z);
    if z < x {
      ThreadGrows(tr, f, z, x);
      LeqTrans(f.cvs[a].value, f.cvs[z].value, f.cvs[x].value);
    }
  }

  // ----- whole runs -----

  lemma CyclicGrows(tr: ScTrace, threads: nat, plan: seq<nat>, n: nat)
    requires Complete(tr, threads) && RunTo(tr, threads, plan, n).s.cyclic
    ensures RunTo(tr, threads, plan, n + 1).s.cyclic
  {
    hide Complete, GenOk, Taken, Candidates, Picked, Advance, Choice, AtChoice;
    var g := RunTo(tr, threads, plan, n);
    RunGood(tr, threads, plan, n);
    if Candidates(tr, threads, g) == [] {
      NoAdvance(tr, threads, g, plan);
    } else {
      NextRun(tr, threads, plan, n);
      TakenGrows(tr, threads, g, Picked(tr, threads, g, Choice(plan, g.used)));
    }
  }

  /** Before a state without a cycle there was none. */
  lemma {:induction false} NoneBefore(tr: ScTrace, threads: nat, plan: seq<nat>, m: nat, n: nat)
    requires Complete(tr, threads) && m <= n && !RunTo(tr, threads, plan, n).s.cyclic
    ensures !RunTo(tr, threads, plan, m).s.cyclic
    decreases n
  {
    hide Complete, RunTo;
    if m < n {
      if RunTo(tr, threads, plan, n - 1).s.cyclic {
        CyclicGrows(tr, threads, plan, n - 1);
      }
      NoneBefore(tr, threads, plan, m, n - 1);
    }
  }

  lemma ApartTaken(tr: ScTrace, threads: nat, g: Gen, a: nat)
    requires Complete(tr, threads) && Regular(tr) && ReadsBack(tr) && Apart(tr) && GenOk(tr, threads, g)
             && IsFront(tr, g.lists, a) && IsOrder(tr, g.s)
    ensures var f := Taken(tr, threads, g, a).s; f.cyclic || IsOrder(tr, f)
  {
    hide Computed, Complete, Bounded, IsOrder, Regular, ReadsBack, Apart, GenOk, ChoiceMade, Taken;
    TakenFrom(tr, threads, g, a);
    AnyMild(tr, Any, ChoiceMade(tr, threads, g, a));
    if Taken(tr, threads, g, a).s == Computed(tr, ChoiceMade(tr, threads, g, a), true, threads) {
      ComputedFinds(tr, ChoiceMade(tr, threads, g, a), true, threads, Any);
    }
  }

  /** Where no late third write is reached from one that may still grow, a state without a cycle is settled. */
  lemma {:induction false} ApartRun(tr: ScTrace, threads: nat, plan: seq<nat>, n: nat)
    requires Complete(tr, threads) && Regular(tr) && ReadsBack(tr) && Apart(tr)
    ensures var s := RunTo(tr, threads, plan, n).s; s.cyclic || IsOrder(tr, s)
    decreases n
  {
    hide Complete, GenOk, Taken, Candidates, Picked, IsOrder, Regular, ReadsBack, Apart, Advance, Choice, AtChoice,
         Computed;
    if n == 0 {
      ComputedFinds(tr, Unset(|tr|), true, threads, Any);
    } else if RunTo(tr, threads, plan, n - 1).s.cyclic {
      CyclicGrows(tr, threads, plan, n - 1);
    } else {
      ApartRun(tr, threads, plan, n - 1);
      var g := RunTo(tr, threads, plan, n - 1);
      if Candidates(tr, threads, g) == [] {
        NoAdvance(tr, threads, g, plan);
      } else {
        NextRun(tr, threads, plan, n - 1);
        ApartTaken(tr, threads, g, Picked(tr, threads, g, Choice(plan, g.used)));
      }
    }
  }

  lemma LateStart(tr: ScTrace, threads: nat, plan: seq<nat>)
    requires Complete(tr, threads) && Regular(tr) && ReadsBack(tr) && AllLate(tr)
    ensures var g := RunTo(tr, threads, plan, 0); g.s.cyclic || (IsOrder(tr, g.s) && LateInv(tr, g.out, g.s))
  {
    hide Complete, Regular, ReadsBack, AllLate, IsOrder, Computed, Forward, Firm;
    StartMild(tr);
    ComputedFinds(tr, Unset(|tr|), true, threads, Late([], Unset(|tr|)));
  }

  /** Where all third writes are late, a state without a cycle is settled too. */
  lemma {:induction false} LateRun(tr: ScTrace, threads: nat, plan: seq<nat>, n: nat)
    requires Complete(tr, threads) && Regular(tr) && ReadsBack(tr) && AllLate(tr) && n <= |tr|
    ensures var g := RunTo(tr, threads, plan, n); g.s.cyclic || (IsOrder(tr, g.s) && LateInv(tr, g.out, g.s))
    decreases n
  {
    hide Complete, Regular, ReadsBack, AllLate, IsOrder, LateInv, RunTo;
    if n == 0 {
      LateStart(tr, threads, plan);
    } else if RunTo(tr, threads, plan, n - 1).s.cyclic {
      CyclicGrows(tr, threads, plan, n - 1);
    } else {
      LateRun(tr, threads, plan, n - 1);
      forall m: nat | m <= n - 1
        ensures IsOrder(tr, RunTo(tr, threads, plan, m).s)
      {
        NoneBefore(tr, threads, plan, m, n - 1);
        LateRun(tr, threads, plan, m);
      }
      LateStep(tr, threads, plan, n - 1);
    }
  }

  lemma LateStep(tr: ScTrace, threads: nat, plan: seq<nat>, n: nat)
    requires Complete(tr, threads) && Regular(tr) && ReadsBack(tr) && AllLate(tr) && n < |tr|
             && SettledTo(tr, threads, plan, n)
    requires var g := RunTo(tr, threads, plan, n); IsOrder(tr, g.s) && LateInv(tr, g.out, g.s)
    ensures var g := RunTo(tr, threads, plan, n + 1); g.s.cyclic || (IsOrder(tr, g.s) && LateInv(tr, g.out, g.s))
  {
    hide Complete, GenOk, Taken, Candidates, Picked, IsOrder, Own, Respects, Advance, Start, Choice, AtChoice, Backed,
         RunTo, ClocksDecide, LateInv, AllLate, ReadsBack, SettledTo;
    var g := RunTo(tr, threads, plan, n);
    RunRespected(tr, threads, plan, n);
    RunGood(tr, threads, plan, n);
    RunBacked(tr, threads, plan, n);
    DecidedNext(tr, threads, g);
    NextRun(tr, threads, plan, n);
    PickedIn(tr, threads, g, Choice(plan, g.used));
    LateTaken(tr, threads, g, Picked(tr, threads, g, Choice(plan, g.used)));
  }

  /** On both kinds of traces a run is settled as long as it meets no cycle. */
  lemma RunsSettle(tr: ScTrace, threads: nat, plan: seq<nat>, k: nat)
    requires Complete(tr, threads) && Regular(tr) && ReadsBack(tr) && (AllLate(tr) || Apart(tr)) && k <= |tr|
             && !RunTo(tr, threads, plan, k).s.cyclic
    ensures SettledTo(tr, threads, plan, k)
  {
    hide Complete, Regular, ReadsBack, Apart, AllLate, RunTo, IsOrder, LateInv;
    forall n: nat | n <= k
      ensures IsOrder(tr, RunTo(tr, threads, plan, n).s)
    {
      NoneBefore(tr, threads, plan, n, k);
      if Apart(tr) {
        ApartRun(tr, threads, plan, n);
      } else {
        LateRun(tr, threads, plan, n);
      }
    }
  }

  /** And in every state of every run on them, only a cycle can block every front. */
  lemma RunsDecide(tr: ScTrace, threads: nat, plan: seq<nat>, n: nat)
    requires Complete(tr, threads) && Regular(tr) && ReadsBack(tr) && (AllLate(tr) || Apart(tr)) && n < |tr|
    ensures var g := RunTo(tr, threads, plan, n); g.s.cyclic || ClocksDecide(tr, threads, g)
  {
    hide Complete, Regular, ReadsBack, Apart, AllLate, RunTo, IsOrder, ClocksDecide, Respects;
    if !RunTo(tr, threads, plan, n).s.cyclic {
      RunsSettle(tr, threads, plan, n);
      RunRespected(tr, threads, plan, n);
    }
  }

  /** At the start the same holds for any trace whose clocks are settled there. */
  lemma StartDecides(tr: ScTrace, threads: nat)
    requires Complete(tr, threads) && Regular(tr) && tr != [] && Settled(tr, Start(tr, threads).s, threads)
    ensures ClocksDecide(tr, threads, Start(tr, threads))
  {
    hide Complete, IsOrder, ClocksDecide, Settled, Computed, Respects;
    SettledExactlyIf(tr, Unset(|tr|), threads);
    RunRespected(tr, threads, [], 0);
  }
}
