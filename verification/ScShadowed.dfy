/** An order found without a cycle that is not sequentially consistent. */
module ScShadowed {
  import opened GraphTheory
  import opened Clocks
  import opened ScTheory
  import opened ScPasses
  import opened ScChoices
  import opened ScGeneration
  import opened ScSearch
  import opened ScUnsettled
  import opened ScConsistency

  // ----- the trace -----

  /**
   * Thread 0 starts thread 1 and writes x; thread 1 writes x too and then reads it from thread 0. The only
   * sequentially consistent order has thread 1's write first, but nothing in the clocks says so.
   */
  function Trace(): (tr: ScTrace)
    ensures |tr| == 6
  {
    [Begin(0, None).(hb := [1]), Spawn(0).(hb := [2]), Begin(1, Some(1)).(hb := [2, 3]), Write(0, 0).(hb := [4]),
     Write(1, 0).(hb := [2, 5]), Read(1, 0, 3).(hb := [2, 6])]
  }

  lemma TraceComplete()
    ensures Complete(Trace(), 2)
  {
    var tr := Trace();
    forall a | 0 <= a < |tr|
      ensures tr[a].tid < 2 && tr[a].join.None? && (tr[a].creation.Some? ==> tr[a].creation.value < |tr|)
      ensures tr[a].read ==> tr[a].rf < |tr| && tr[tr[a].rf].write && tr[tr[a].rf].loc == tr[a].loc
    {
    }
  }

  /** The clocks, but for that of thread 1's write. */
  function Clock6(c4: Clock): (c: seq<Clock>)
    ensures |c| == 6
  {
    [[1], [2], [2, 3], [4], c4, [4, 6]]
  }

  // ----- the passes -----

  function LastSeen(a: nat): map<nat, nat> {
    if a == 0 then map[] else if a == 1 then map[0 := 0] else if a == 2 then map[0 := 1]
       else if a == 3 then map[0 := 1, 1 := 2]
    else if a == 4 then map[0 := 3, 1 := 2] else if a == 5 then map[0 := 3, 1 := 4] else map[0 := 3, 1 := 5]
  }

  function Earlier6(a: nat): Option<nat> {
    if a == 0 then None else if a == 1 then Some(0) else if a == 2 then Some(1) else if a == 3 then Some(1)
    else if a == 4 then Some(2) else Some(4)
  }

  lemma Visited(s: Vectors, changed: bool, a: nat, s': Vectors)
    requires a < 6 && |s.cvs| == 6 && Complete(Trace(), 2)
             && Visit(Trace(), s, changed, a, Earlier6(a), 2) == (s', changed)
    ensures LastOk(Trace(), LastSeen(a)) && LastOk(Trace(), LastSeen(a + 1)) && |s'.cvs| == 6
    ensures Pass(Trace(), s, changed, a, LastSeen(a), 2) == Pass(Trace(), s', changed, a + 1, LastSeen(a + 1), 2)
  {
    hide Visit, Complete;
    var tr := Trace();
    assert LastAct(tr, LastSeen(a), a) == Earlier6(a);
    assert LastSeen(a)[tr[a].tid := a] == LastSeen(a + 1);
  }

  /** Thread 1's read has no third writes, so only program order and the observed write count. */
  lemma VisitRead(s: Vectors, changed: bool, c4: Clock, c5: Clock)
    requires |s.cvs| == 6 && Complete(Trace(), 2) && s.cvs[3] == Some([4]) && s.cvs[4] == Some(c4)
             && s.cvs[5] == Some(c5)
    requires (c4 == [2, 5] || c4 == [4, 5]) && (c5 == [0, 6] || c5 == [4, 6])
    ensures Visit(Trace(), s, changed, 5, Some(4), 2) == (s.(cvs := s.cvs[5 := Some([4, 6])]), changed)
  {
    hide Complete;
    var tr := Trace();
    var d := Join(c5, c4);
    Joined(c5, c4, [if c5[0] > c4[0] then c5[0] else c4[0], 6]);
    Joined(d, [4], [4, 6]);
    var s1 := s.(cvs := s.cvs[5 := Some(d)]);
    assert Merge(tr, s, 5, 4).0 == s1;
    var s2 := s.(cvs := s.cvs[5 := Some([4, 6])]);
    assert s1.cvs[5 := Some([4, 6])] == s2.cvs;
    assert Merge(tr, s1, 5, 3).0 == s2;
    assert ReadThreads(tr, s2, false, 5, 2, 1) == (s2, false);
    assert ReadThreads(tr, s2, false, 5, 2, 0) == (s2, false);
  }

  lemma VisitOther(s: Vectors, changed: bool, a: nat, own: Clock, c4: Clock)
    requires a < 5 && |s.cvs| == 6 && Complete(Trace(), 2) && s.cvs[a] == Some(own) && (c4 == [2, 5] || c4 == [4, 5])
    requires Earlier6(a).Some? ==> s.cvs[Earlier6(a).value] == Some(Clock6(c4)[Earlier6(a).value])
    requires own == Clock6(c4)[a] || (c4 == [2, 5] && own == Create([], Trace()[a].tid, a + 1))
    ensures Visit(Trace(), s, changed, a, Earlier6(a), 2) == (s.(cvs := s.cvs[a := Some(Clock6(c4)[a])]), changed)
  {
    hide Complete, Visit;
    NewClock(0, 1, [1]);
    NewClock(0, 2, [2]);
    NewClock(1, 3, [0, 3]);
    NewClock(0, 4, [4]);
    NewClock(1, 5, [0, 5]);
    Joined([2], [1], [2]);
    Joined([2, 3], [2], [2, 3]);
    Joined([0, 3], [2], [2, 3]);
    Joined([4], [2], [4]);
    Joined([2, 5], [2, 3], [2, 5]);
    Joined([4, 5], [2, 3], [4, 5]);
    Joined([0, 5], [2, 3], [2, 5]);
    VisitPlain(Trace(), s, changed, a, Earlier6(a), Clock6(c4)[a], 2);
  }

  /** A pass over clocks that are right finds nothing. */
  lemma {:induction false} CalmFrom(c4: Clock, changed: bool, a: nat)
    requires a <= 6 && (c4 == [2, 5] || c4 == [4, 5])
    ensures Complete(Trace(), 2) && LastOk(Trace(), LastSeen(a))
    ensures Pass(Trace(), Full(Clock6(c4)), changed, a, LastSeen(a), 2) == (Full(Clock6(c4)), changed)
    decreases 6 - a
  {
    hide Visit, Complete;
    TraceComplete();
    if a < 6 {
      var s := Full(Clock6(c4));
      if a < 5 {
        VisitOther(s, changed, a, Clock6(c4)[a], c4);
      } else {
        VisitRead(s, changed, c4, [4, 6]);
      }
      assert s.cvs[a := Some(Clock6(c4)[a])] == s.cvs;
      Visited(s, changed, a, s);
      CalmFrom(c4, changed, a + 1);
    }
  }

  /** The first pass finds the clocks. */
  lemma {:induction false} FirstFrom(a: nat)
    requires a <= 6
    ensures Complete(Trace(), 2) && LastOk(Trace(), LastSeen(a))
    ensures Pass(Trace(), Partly(Clock6([2, 5]), a), true, a, LastSeen(a), 2) == (Full(Clock6([2, 5])), true)
    decreases 6 - a
  {
    hide Visit, Complete;
    TraceComplete();
    var c := Clock6([2, 5]);
    if a == 6 {
      assert Partly(c, 6).cvs == Full(c).cvs;
    } else {
      var s, s' := Partly(c, a), Partly(c, a + 1);
      var own := Create([], Trace()[a].tid, a + 1);
      var s0 := s.(cvs := s.cvs[a := Some(own)]);
      VisitFresh(Trace(), s, true, a, Earlier6(a), 2);
      if a < 5 {
        VisitOther(s0, true, a, own, [2, 5]);
      } else {
        NewClock(1, 6, [0, 6]);
        VisitRead(s0, true, [2, 5], own);
      }
      assert s0.cvs[a := Some(c[a])] == s'.cvs;
      Visited(s, true, a, s');
      FirstFrom(a + 1);
    }
  }

  /** What the passes arrive at, from the start and once thread 0's write has been put first. */
  lemma ComputedClocks()
    ensures Complete(Trace(), 2) && Bounded(Unset(6), 2) && Bounded(Full(Clock6([4, 5])), 2)
    ensures Computed(Trace(), Unset(6), true, 2) == Full(Clock6([2, 5]))
    ensures Computed(Trace(), Full(Clock6([4, 5])), true, 2) == Full(Clock6([4, 5]))
  {
    hide Complete, Pass, Slack, LastOk, Bounded;
    var tr := Trace();
    FirstFrom(0);
    assert Partly(Clock6([2, 5]), 0).cvs == Unset(6).cvs;
    CalmFrom([2, 5], false, 0);
    CalmFrom([4, 5], true, 0);
    CalmFrom([4, 5], false, 0);
    ClocksBounded();
    PassGrows(tr, Unset(6), true, 2);
    PassGrows(tr, Full(Clock6([4, 5])), true, 2);
    assert Computed(tr, Full(Clock6([2, 5])), false, 2) == Full(Clock6([2, 5]));
    assert Computed(tr, Full(Clock6([4, 5])), false, 2) == Full(Clock6([4, 5]));
  }

  lemma ClocksBounded()
    ensures Bounded(Unset(6), 2) && Bounded(Full(Clock6([4, 5])), 2)
  {
  }

  // ----- the run -----

  function State(n: nat): Gen {
    if n == 0 then Gen([[0, 1, 3], [2, 4, 5]], Full(Clock6([2, 5])), 0, [])
    else if n == 1 then Gen([[1, 3], [2, 4, 5]], Full(Clock6([2, 5])), 0, [0])
    else if n == 2 then Gen([[3], [2, 4, 5]], Full(Clock6([2, 5])), 0, [0, 1])
    else if n == 3 then Gen([[3], [4, 5]], Full(Clock6([2, 5])), 0, [0, 1, 2])
    else if n == 4 then Gen([[], [4, 5]], Full(Clock6([4, 5])), 1, [0, 1, 2, 3])
    else if n == 5 then Gen([[], [5]], Full(Clock6([4, 5])), 1, [0, 1, 2, 3, 4])
    else Gen([[], []], Full(Clock6([4, 5])), 1, [0, 1, 2, 3, 4, 5])
  }

  function Part(t: nat, n: nat): seq<nat> {
    if t == 0 then (if n == 0 then [] else if n == 1 then [0] else if n < 4 then [0, 1] else [0, 1, 3])
    else (if n < 3 then [] else if n < 5 then [2] else if n == 5 then [2, 4] else [2, 4, 5])
  }

  lemma TidOf(n: nat)
    requires n <= 6
    ensures n > 0 ==> Trace()[n - 1].tid == if n == 1 || n == 2 || n == 4 then 0 else 1
  {
  }

  lemma PartNext(t: nat, n: nat)
    requires t < 2 && n <= 6
    ensures Part(t, 0) == []
    ensures n > 0 ==>
              Part(t, n) == if t == (if n == 1 || n == 2 || n == 4 then 0 else 1) then Part(t, n - 1) + [n - 1]
                            else Part(t, n - 1)
  {
  }

  lemma {:induction false} PartIs(t: nat, n: nat)
    requires t < 2 && n <= 6
    ensures ThreadList(Trace(), t, n) == Part(t, n)
    decreases n
  {
    hide ListOk, Increasing, Part, Trace;
    TidOf(n);
    PartNext(t, n);
    if n > 0 {
      PartIs(t, n - 1);
    }
  }

  lemma StartIs()
    ensures Complete(Trace(), 2) && Start(Trace(), 2) == State(0)
  {
    hide Complete, Computed, ThreadList, ListOk, Increasing;
    ComputedClocks();
    PartIs(0, 6);
    PartIs(1, 6);
    assert AllLists(Trace(), 2) == [[0, 1, 3], [2, 4, 5]];
  }

  /** The first of a thread, unless the other's comes before it. */
  function FrontOf(s: Vectors, l: seq<nat>, o: seq<nat>, t: nat): seq<nat>
    requires |s.cvs| == 6 && (l != [] ==> l[0] < 6)
  {
    if l != [] && !(o != [] && Since(ClocksOf(s)[l[0]], t, o[0])) then [l[0]] else []
  }

  lemma TwoFronts(s: Vectors, l0: seq<nat>, l1: seq<nat>)
    requires |s.cvs| == 6 && ListsOk(Trace(), [l0, l1])
    ensures (l0 != [] ==> l0[0] < 6) && (l1 != [] ==> l1[0] < 6)
    ensures var r := FrontOf(s, l0, l1, 1) + FrontOf(s, l1, l0, 0); r != [] ==> NextActions(Trace(), [l0, l1], s) == r
  {
    var lists, c := [l0, l1], ClocksOf(s);
    Fronts(Trace(), lists);
    assert lists[0] == l0 && lists[1] == l1;
    assert l0 != [] ==> (Blocked(lists, c[l0[0]], 0) <==> l1 != [] && Since(c[l0[0]], 1, l1[0]));
    assert l1 != [] ==> (Blocked(lists, c[l1[0]], 1) <==> l0 != [] && Since(c[l1[0]], 0, l0[0]));
    assert Ready(lists, c, 2) == [];
    assert Ready(lists, c, 1) == FrontOf(s, l1, l0, 0);
    assert Ready(lists, c, 0) == FrontOf(s, l0, l1, 1) + FrontOf(s, l1, l0, 0);
  }

  /** Taking an action: the other thread is what is left to constrain. */
  lemma TakenOne(g: Gen, a: nat, l0: seq<nat>, l1: seq<nat>)
    requires Complete(Trace(), 2) && GenOk(Trace(), 2, g) && IsFront(Trace(), g.lists, a)
             && Pop(g.lists, Trace()[a].tid) == [l0, l1]
    ensures Listed(Trace(), l0) && Listed(Trace(), l1) && |Trace()| == |g.s.cvs| && a < 6
    ensures var p := AfterAct(Trace(), g.s, a, if Trace()[a].tid == 0 then l1 else l0, 0);
            && Bounded(p.0, 2)
            && Taken(Trace(), 2, g, a) == Gen([l0, l1], if p.1 then Computed(Trace(), p.0, true, 2)
                                              else p.0, g.used, g.out + [a])
  {
    hide Computed, AfterAct, Complete, Split, Bounded;
    var tr := Trace();
    var t := tr[a].tid;
    PopOk(tr, g.lists, a);
    var lists := [l0, l1];
    assert lists[0] == l0 && lists[1] == l1;
    assert ListOk(tr, l0, 0) && ListOk(tr, l1, 1);
    var o := if t == 0 then l1 else l0;
    var p := AfterAct(tr, g.s, a, o, 0);
    AfterActStep(tr, g.s, a, o, 0, 2);
    assert UpdateConstraints(tr, lists, p.0, p.1, a, 2) == p;
    assert UpdateConstraints(tr, lists, g.s, false, a, 0) == p;
  }

  /** A single candidate is taken. */
  lemma OnlyOne(g: Gen, a: nat)
    requires GenOk(Trace(), 2, g) && |g.lists| == 2 && a < 6
    requires forall l {:trigger l in g.lists} :: l in g.lists && l != [] ==> l[0] < 6
    requires FrontOf(g.s, g.lists[0], g.lists[1], 1) + FrontOf(g.s, g.lists[1], g.lists[0], 0) == [a]
    ensures Candidates(Trace(), 2, g) == [a] && !AtChoice(Trace(), 2, g) && Picked(Trace(), 2, g, 0) == a
  {
    hide Split, ListsOk, FrontOf, NextActions, NonWrite, NonConflict, Bounded;
    assert g.lists == [g.lists[0], g.lists[1]];
    TwoFronts(g.s, g.lists[0], g.lists[1]);
  }

  /** What the clocks say about the fronts. */
  lemma FrontsOf(n: nat)
    requires n < 6 && n != 2 && n != 3
    ensures var g := State(n);
            && |g.lists| == 2 && (forall l {:trigger l in g.lists} :: l in g.lists && l != [] ==> l[0] < 6)
            && FrontOf(g.s, g.lists[0], g.lists[1], 1) + FrontOf(g.s, g.lists[1], g.lists[0], 0) == [n]
  {
  }

  /** Before a write, thread 1's start is taken. */
  lemma StartFirst()
    requires GenOk(Trace(), 2, State(2))
    ensures Candidates(Trace(), 2, State(2)) != [] && !AtChoice(Trace(), 2, State(2))
            && Picked(Trace(), 2, State(2), 0) == 2
  {
    hide Split, Bounded, ListsOk, NextActions;
    var tr, g := Trace(), State(2);
    assert g.lists == [[3], [2, 4, 5]];
    TwoFronts(g.s, [3], [2, 4, 5]);
    var arr := Candidates(tr, 2, g);
    assert arr == [3, 2];
    assert NonWrite(tr, arr, 1) == None;
    assert NonWrite(tr, arr, 2) == Some(2);
  }

  /** The two writes conflict, so there is a choice; the first candidate is thread 0's write. */
  lemma WriteChosen()
    requires GenOk(Trace(), 2, State(3))
    ensures AtChoice(Trace(), 2, State(3)) && Candidates(Trace(), 2, State(3)) == [3, 4]
            && Picked(Trace(), 2, State(3), 0) == 3
  {
    hide Split, Bounded, ListsOk, NextActions;
    var tr, g := Trace(), State(3);
    assert g.lists == [[3], [4, 5]];
    TwoFronts(g.s, [3], [4, 5]);
    var arr := Candidates(tr, 2, g);
    assert arr == [3, 4];
    assert NonWrite(tr, arr, 1) == None;
    assert NonWrite(tr, arr, 2) == None;
    ListsAreIn(tr, g.lists);
    assert ConflictIn(tr, g.s, 3, g.lists[1], 0);
    assert ConflictIn(tr, g.s, 4, g.lists[0], 0);
    assert Conflicts(tr, g.lists, g.s, 3) && Conflicts(tr, g.lists, g.s, 4);
    assert NonConflict(tr, g.lists, g.s, arr, 1) == None;
    assert NonConflict(tr, g.lists, g.s, arr, 2) == None;
  }

  lemma PopIs(n: nat)
    requires n < 6
    ensures var l := State(n + 1).lists;
            IsFront(Trace(), State(n).lists, n) && Pop(State(n).lists, Trace()[n].tid) == l && |l| == 2
              && l == [l[0], l[1]]
  {
    var t := Trace()[n].tid;
    assert Pop(State(n).lists, t)[t] == State(n + 1).lists[t];
  }

  /** What is taken adds an ordering only if it is thread 0's write. */
  lemma TakenIs(n: nat)
    requires n < 6 && Complete(Trace(), 2) && GenOk(Trace(), 2, State(n))
    ensures IsFront(Trace(), State(n).lists, n)
    ensures Taken(Trace(), 2, State(n), n).(used := State(n + 1).used) == State(n + 1)
  {
    hide Complete, Split, Bounded, ListsOk, Computed;
    var tr, g, g' := Trace(), State(n), State(n + 1);
    PopIs(n);
    TakenOne(g, n, g'.lists[0], g'.lists[1]);
    ComputedClocks();
    AddedBy(n);
  }

  lemma AddedBy(n: nat)
    requires n < 6
    ensures var g, g' := State(n), State(n + 1);
            var o := if Trace()[n].tid == 0 then g'.lists[1] else g'.lists[0];
            Listed(Trace(), o) && AfterAct(Trace(), g.s, n, o, 0) == (g'.s, n == 3)
  {
    hide Clocks.Join;
    Joined([2, 5], [4], [4, 5]);
    var s, s' := Full(Clock6([2, 5])), Full(Clock6([4, 5]));
    assert s.cvs[4 := Some([4, 5])] == s'.cvs;
  }

  function Plan6(): (plan: seq<nat>)
    ensures |plan| == 6 && forall q {:trigger plan[q]} :: 0 <= q < 6 ==> plan[q] == 0
  {
    [0, 0, 0, 0, 0, 0]
  }

  lemma {:induction false} RunIs(n: nat)
    requires n <= 6
    ensures Complete(Trace(), 2) && RunTo(Trace(), 2, Plan6(), n) == State(n)
    decreases n
  {
    hide Complete, GenOk, Taken, Candidates, Picked, Start, AtChoice;
    StartIs();
    if n > 0 {
      RunIs(n - 1);
      TakenIs(n - 1);
      StepTakes(n - 1);
      assert RunTo(Trace(), 2, Plan6(), n) == Advance(Trace(), 2, State(n - 1), Plan6());
    }
  }

  lemma StepTakes(n: nat)
    requires n < 6 && GenOk(Trace(), 2, State(n))
    ensures Candidates(Trace(), 2, State(n)) != [] && Picked(Trace(), 2, State(n), 0) == n
    ensures AtChoice(Trace(), 2, State(n)) <==> n == 3
  {
    hide GenOk, Candidates, Picked, AtChoice, FrontOf;
    if n == 2 {
      StartFirst();
    } else if n == 3 {
      WriteChosen();
    } else {
      FrontsOf(n);
      OnlyOne(State(n), n);
    }
  }

  lemma NeverBreaks()
    ensures Complete(Trace(), 2) && !Breaks(Trace(), 2, Plan6())
  {
    hide Complete, GenOk, Taken, Candidates, Picked, Start, AtChoice, RunTo, Broke;
    RunIs(0);
    forall n: nat | n < 6
      ensures !BreaksAt(Trace(), 2, Plan6(), n)
    {
      RunIs(n);
      RunIs(n + 1);
      StepTakes(n);
      NextRun(Trace(), 2, Plan6(), n);
      NotBroke(State(n), n);
    }
  }

  lemma NotBroke(g: Gen, a: nat)
    requires Complete(Trace(), 2) && GenOk(Trace(), 2, g) && IsFront(Trace(), g.lists, a)
             && !Taken(Trace(), 2, g, a).s.cyclic
    ensures !Broke(Trace(), 2, g, a)
  {
  }

  lemma StaleRead()
    ensures var out := [0, 1, 2, 3, 4, 5];
            Interleaving(Trace(), out) && Shadowed(Trace(), out, 5) && !Consistent(Trace(), out)
  {
    var tr, out := Trace(), [0, 1, 2, 3, 4, 5];
    assert Ordered(tr, out);
    forall a: nat | a < 6
      ensures a in out
    {
      assert out[a] == a;
    }
    assert WriteAt(tr, out, 4, 0) && out[..4][3] == 3;
    assert LastWrite(tr, out, 5, 0) == Some(4);
    assert !Sees(tr, out, 5);
  }

  lemma OtherOrder()
    ensures Consistent(Trace(), [0, 1, 2, 4, 3, 5])
  {
    var tr, out := Trace(), [0, 1, 2, 4, 3, 5];
    assert Ordered(tr, out);
    forall a: nat | a < 6
      ensures a in out
    {
      assert out[if a == 3 then 4 else if a == 4 then 3 else a] == a;
    }
    assert LastWrite(tr, out, 5, 0) == Some(3);
    forall n: nat | n < 6
      ensures Sees(tr, out, n)
    {
      assert tr[out[n]].read ==> n == 5;
    }
  }

  lemma TraceForward()
    ensures HbForward(Trace())
  {
  }

  /**
   * The search finds an order without meeting a cycle, and its read does not see what it observed; another order of
   * the same trace is sequentially consistent.
   */
  lemma NotConsistent()
    ensures var tr, plan := Trace(), Plan6();
            && Complete(tr, 2) && HbForward(tr) && IsPlan(tr, 2, plan) && !Breaks(tr, 2, plan)
            && var g := RunTo(tr, 2, plan, 6);
               !g.s.cyclic && Interleaving(tr, g.out) && Shadowed(tr, g.out, 5) && !Consistent(tr, g.out)
    ensures Consistent(Trace(), [0, 1, 2, 4, 3, 5])
  {
    hide Complete, GenOk, RunTo, Breaks, IsPlan, Consistent, Shadowed, Interleaving;
    NeverBreaks();
    RunIs(6);
    ZeroIsPlan(Trace(), 2, Plan6());
    TraceForward();
    StaleRead();
    OtherOrder();
  }
}
