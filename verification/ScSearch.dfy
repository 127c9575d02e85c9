/** Which choices the search rules out: a run that closes a cycle, and every run that must do the same. */
module ScSearch {
  import opened ScTheory
  import opened ScPasses
  import opened ScChoices
  import opened ScGeneration

  /** Working out what follows from taking the action is what meets the first cycle. */
  predicate Broke(tr: ScTrace, threads: nat, g: Gen, a: nat)
    requires Complete(tr, threads) && GenOk(tr, threads, g) && IsFront(tr, g.lists, a)
  {
    PopOk(tr, g.lists, a);
    var p := UpdateConstraints(tr, Pop(g.lists, tr[a].tid), g.s, false, a, 0);
    p.1 && !p.0.cyclic && Taken(tr, threads, g, a).s.cyclic
  }

  function Choice(plan: seq<nat>, q: nat): nat {
    if q < |plan| then plan[q] else 0
  }

  ghost predicate StepBreaks(tr: ScTrace, threads: nat, g: Gen, choice: nat)
    requires Complete(tr, threads) && GenOk(tr, threads, g)
  {
    Candidates(tr, threads, g) != [] && Broke(tr, threads, g, Picked(tr, threads, g, choice))
  }

  ghost predicate BreaksAt(tr: ScTrace, threads: nat, plan: seq<nat>, n: nat)
    requires Complete(tr, threads)
  {
    var g := RunTo(tr, threads, plan, n);
    StepBreaks(tr, threads, g, Choice(plan, g.used))
  }

  ghost predicate Breaks(tr: ScTrace, threads: nat, plan: seq<nat>)
    requires Complete(tr, threads)
  {
    exists n: nat :: n < |tr| && BreaksAt(tr, threads, plan, n)
  }

  /** A full plan each of whose choices names a candidate. */
  ghost predicate IsPlan(tr: ScTrace, threads: nat, plan: seq<nat>)
    requires Complete(tr, threads)
  {
    |plan| == |tr|
      && forall q: nat {:trigger Names(tr, threads, plan, q, 0)} :: q < |plan| ==> Names(tr, threads, plan, q, 0)
  }

  /** The q-th choice takes the last of the candidates. */
  ghost predicate LastAt(tr: ScTrace, threads: nat, plan: seq<nat>, q: nat, g: Gen)
    requires GenOk(tr, threads, g) && q < |plan|
  {
    AtChoice(tr, threads, g) && g.used == q ==> plan[q] + 1 >= |Candidates(tr, threads, g)|
  }

  ghost predicate Last(tr: ScTrace, threads: nat, plan: seq<nat>, q: nat)
    requires Complete(tr, threads) && q < |plan|
  {
    forall n: nat {:trigger RunTo(tr, threads, plan, n)} :: LastAt(tr, threads, plan, q, RunTo(tr, threads, plan, n))
  }

  lemma LastHere(tr: ScTrace, threads: nat, plan: seq<nat>, n: nat)
    requires Complete(tr, threads)
    requires var g := RunTo(tr, threads, plan, n);
             AtChoice(tr, threads, g) && g.used < |plan| && plan[g.used] + 1 >= |Candidates(tr, threads, g)|
    ensures Last(tr, threads, plan, RunTo(tr, threads, plan, n).used)
  {
    hide RunTo, GenOk, Complete, AtChoice;
    var q := RunTo(tr, threads, plan, n).used;
    forall m: nat
      ensures LastAt(tr, threads, plan, q, RunTo(tr, threads, plan, m))
    {
      if AtChoice(tr, threads, RunTo(tr, threads, plan, m)) {
        if m < n {
          OnePoint(tr, threads, plan, m, n);
        } else if n < m {
          OnePoint(tr, threads, plan, n, m);
        }
      }
    }
  }

  /** How many choices the first n + 1 steps make. */
  ghost function Made(tr: ScTrace, threads: nat, plan: seq<nat>, n: nat): nat
    requires Complete(tr, threads)
  {
    var g := RunTo(tr, threads, plan, n);
    g.used + (if AtChoice(tr, threads, g) then 1 else 0)
  }

  /** Every choice that was made was made at some step. */
  lemma {:induction false} MadeAt(tr: ScTrace, threads: nat, plan: seq<nat>, n: nat, q: nat) returns (m: nat)
    requires Complete(tr, threads) && q < Made(tr, threads, plan, n)
    ensures m <= n && AtChoice(tr, threads, RunTo(tr, threads, plan, m)) && RunTo(tr, threads, plan, m).used == q
    decreases n
  {
    hide Advance, GenOk, Complete, AtChoice;
    if q == RunTo(tr, threads, plan, n).used {
      m := n;
    } else {
      m := MadeAt(tr, threads, plan, n - 1, q);
    }
  }

  lemma StepSame(tr: ScTrace, threads: nat, g: Gen, choice: nat, choice': nat)
    requires Complete(tr, threads) && GenOk(tr, threads, g) && StepBreaks(tr, threads, g, choice)
    requires AtChoice(tr, threads, g) ==> choice == choice'
    ensures StepBreaks(tr, threads, g, choice')
  {
    hide Broke, Candidates, Complete, ListsOk, Split;
  }

  /** A plan that makes the same choices breaks at the same step. */
  lemma SameBreaks(tr: ScTrace, threads: nat, plan: seq<nat>, plan': seq<nat>, n: nat)
    requires Complete(tr, threads) && BreaksAt(tr, threads, plan, n)
    requires var u := Made(tr, threads, plan, n); u <= |plan| && u <= |plan'| && plan[..u] == plan'[..u]
    ensures BreaksAt(tr, threads, plan', n)
  {
    hide RunTo, GenOk, Complete, AtChoice, StepBreaks;
    var u := Made(tr, threads, plan, n);
    SamePrefix(tr, threads, plan, plan', u, n);
    var g := RunTo(tr, threads, plan, n);
    if AtChoice(tr, threads, g) {
      assert plan[g.used] == plan[..u][g.used] == plan'[..u][g.used] == plan'[g.used];
    }
    StepSame(tr, threads, g, Choice(plan, g.used), Choice(plan', g.used));
  }

  // ----- plans in order -----

  ghost predicate Smaller(p: seq<nat>, q: seq<nat>) {
    exists j: nat :: j < |p| && j < |q| && p[..j] == q[..j] && p[j] < q[j]
  }

  lemma {:induction false} FirstDifference(p: seq<nat>, q: seq<nat>, n: nat) returns (j: nat)
    requires n <= |p| && n <= |q|
    ensures j <= n && p[..j] == q[..j] && (j < n ==> p[j] != q[j])
    decreases n
  {
    if n == 0 {
      j := 0;
    } else {
      j := FirstDifference(p, q, n - 1);
      if j == n - 1 && p[j] == q[j] {
        assert p[..n] == p[..j] + [p[j]] && q[..n] == q[..j] + [q[j]];
        j := n;
      }
    }
  }

  /**
   * If a run breaks at step n and all its choices from j on were the last ones, then every plan that agrees
   * up to j and is not smaller breaks as well.
   */
  lemma AlsoBreaks(tr: ScTrace, threads: nat, plan: seq<nat>, other: seq<nat>, n: nat, j: nat)
    requires Complete(tr, threads) && |plan| == |tr| && IsPlan(tr, threads, other) && BreaksAt(tr, threads, plan, n)
    requires var u := Made(tr, threads, plan, n);
             j <= u <= |plan| && forall q: nat :: j <= q < u ==> Last(tr, threads, plan, q)
    requires other[..j] == plan[..j] && !Smaller(other, plan)
    ensures BreaksAt(tr, threads, other, n)
  {
    hide RunTo, GenOk, Complete, AtChoice, StepBreaks, Last, Names;
    var u := Made(tr, threads, plan, n);
    var d := FirstDifference(other, plan, u);
    if d < u {
      assert plan[d] < other[d];
      var m := MadeAt(tr, threads, plan, n, d);
      TooLarge(tr, threads, plan, other, m);
    } else {
      SameBreaks(tr, threads, plan, other, n);
    }
  }

  /** Beyond the last candidate there is none to name. */
  lemma TooLarge(tr: ScTrace, threads: nat, plan: seq<nat>, other: seq<nat>, m: nat)
    requires Complete(tr, threads) && AtChoice(tr, threads, RunTo(tr, threads, plan, m))
    requires var q := RunTo(tr, threads, plan, m).used;
             && q < |plan| && q < |other| && other[..q] == plan[..q] && Last(tr, threads, plan, q)
             && Names(tr, threads, other, q, 0)
    ensures other[RunTo(tr, threads, plan, m).used] <= plan[RunTo(tr, threads, plan, m).used]
  {
    hide RunTo, GenOk, Complete, AtChoice;
    var g := RunTo(tr, threads, plan, m);
    SamePrefix(tr, threads, plan, other, g.used, m);
    assert LastAt(tr, threads, plan, g.used, g);
    assert NamesAt(tr, threads, other, g.used, 0, RunTo(tr, threads, other, m));
  }

  /** Every plan smaller than this one breaks. */
  ghost predicate RuledOut(tr: ScTrace, threads: nat, plan: seq<nat>)
    requires Complete(tr, threads)
  {
    forall other: seq<nat> {:trigger IsPlan(tr, threads, other)} ::
      IsPlan(tr, threads, other) && Smaller(other, plan) ==> Breaks(tr, threads, other)
  }

  /**
   * The next plan after a break: the last choice that has another candidate takes it, and the later ones start over.
   */
  function NextPlan(plan: seq<nat>, j: nat): (r: seq<nat>)
    requires j < |plan|
    ensures |r| == |plan| && r[..j] == plan[..j] && r[j] == plan[j] + 1 && forall q :: j < q < |r| ==> r[q] == 0
  {
    plan[..j] + [plan[j] + 1] + seq(|plan| - j - 1, _ => 0)
  }

  lemma BetweenPlans(plan: seq<nat>, other: seq<nat>, j: nat)
    requires j < |plan| == |other| && Smaller(other, NextPlan(plan, j))
    ensures Smaller(other, plan) || other[..j + 1] == plan[..j + 1]
  {
    var r := NextPlan(plan, j);
    var d: nat :| d < |other| && d < |r| && other[..d] == r[..d] && other[d] < r[d];
    if d < j {
      assert other[..d] == r[..j][..d] == plan[..d];
      assert r[d] == r[..j][d] == plan[d];
    } else {
      assert other[..j + 1] == other[..j] + [other[j]] && plan[..j + 1] == plan[..j] + [plan[j]];
    }
  }

  /** After a break, everything before the next plan is ruled out. */
  lemma NextRuledOut(tr: ScTrace, threads: nat, plan: seq<nat>, n: nat, j: nat)
    requires Complete(tr, threads) && |plan| == |tr| && n < |tr| && BreaksAt(tr, threads, plan, n)
             && RuledOut(tr, threads, plan)
    requires var u := Made(tr, threads, plan, n);
             j < u <= |plan| && forall q: nat :: j < q < u ==> Last(tr, threads, plan, q)
    ensures RuledOut(tr, threads, NextPlan(plan, j))
  {
    hide RunTo, GenOk, Complete, AtChoice, BreaksAt, Last, Names;
    forall other: seq<nat> | IsPlan(tr, threads, other) && Smaller(other, NextPlan(plan, j))
      ensures Breaks(tr, threads, other)
    {
      if !Smaller(other, plan) {
        BetweenPlans(plan, other, j);
        AlsoBreaks(tr, threads, plan, other, n, j + 1);
      }
    }
  }

  /** After a break without another candidate anywhere, every plan is ruled out. */
  lemma AllRuledOut(tr: ScTrace, threads: nat, plan: seq<nat>, n: nat)
    requires Complete(tr, threads) && |plan| == |tr| && n < |tr| && BreaksAt(tr, threads, plan, n)
             && RuledOut(tr, threads, plan)
    requires var u := Made(tr, threads, plan, n); u <= |plan| && forall q: nat :: q < u ==> Last(tr, threads, plan, q)
    ensures forall other: seq<nat> {:trigger IsPlan(tr, threads, other)} ::
              IsPlan(tr, threads, other) ==> Breaks(tr, threads, other)
  {
    hide RunTo, GenOk, Complete, AtChoice, BreaksAt, Last, Names;
    forall other: seq<nat> | IsPlan(tr, threads, other)
      ensures Breaks(tr, threads, other)
    {
      if !Smaller(other, plan) {
        AlsoBreaks(tr, threads, plan, other, n, 0);
      }
    }
  }
  // ----- the bookkeeping of the search -----

  /** The choices recorded so far are those of the plan, and the last one with another candidate is known. */
  ghost predicate Book(tr: ScTrace, threads: nat, plan: seq<nat>, choices: seq<nat>, end: nat, curr: nat, last: int)
    requires Complete(tr, threads)
  {
    && IsPlan(tr, threads, plan) && Digits(plan, threads) && |choices| == |tr| && end <= |tr| && curr <= |tr|
    && -1 <= last < curr
    && (forall q {:trigger choices[q]} :: 0 <= q < |tr| && (q < end || q < curr) ==> choices[q] == plan[q])
    && (forall q {:trigger plan[q]} :: end <= q < |tr| ==> plan[q] == 0)
    && (last >= 0 ==> Names(tr, threads, plan, last, 1))
    && (forall q: nat {:trigger Last(tr, threads, plan, q)} :: last < q < curr ==> Last(tr, threads, plan, q))
  }

  /** The first candidate is always there to be named. */
  lemma ZeroNames(tr: ScTrace, threads: nat, plan: seq<nat>, q: nat)
    requires Complete(tr, threads) && q < |plan| && plan[q] == 0
    ensures Names(tr, threads, plan, q, 0)
  {
    hide RunTo, GenOk, Complete, Candidates;
  }

  lemma ZeroPlan(tr: ScTrace, threads: nat, plan: seq<nat>)
    requires Complete(tr, threads) && |plan| == |tr| && forall q {:trigger plan[q]} :: 0 <= q < |tr| ==> plan[q] == 0
    ensures Book(tr, threads, plan, plan, 0, 0, -1) && RuledOut(tr, threads, plan)
  {
    hide Names, IsPlan;
    assert IsPlan(tr, threads, plan) by {
      ZeroIsPlan(tr, threads, plan);
    }
    if |tr| > 0 {
      CompleteAt(tr, threads, 0);
    }
  }

  lemma ZeroIsPlan(tr: ScTrace, threads: nat, plan: seq<nat>)
    requires Complete(tr, threads) && |plan| == |tr| && forall q {:trigger plan[q]} :: 0 <= q < |tr| ==> plan[q] == 0
    ensures IsPlan(tr, threads, plan)
  {
    hide Names;
    forall q: nat | q < |plan|
      ensures Names(tr, threads, plan, q, 0)
    {
      ZeroNames(tr, threads, plan, q);
    }
  }

  /** A named candidate is below the number of threads. */
  lemma DigitBelow(tr: ScTrace, threads: nat, plan: seq<nat>, n: nat)
    requires Complete(tr, threads) && AtChoice(tr, threads, RunTo(tr, threads, plan, n))
             && RunTo(tr, threads, plan, n).used < |plan|
    requires Names(tr, threads, plan, RunTo(tr, threads, plan, n).used, 1)
    ensures plan[RunTo(tr, threads, plan, n).used] + 1 < threads
  {
    hide RunTo, Complete, AtChoice;
    var g := RunTo(tr, threads, plan, n);
    assert NamesAt(tr, threads, plan, g.used, 1, g);
  }

  lemma NextIsPlan(tr: ScTrace, threads: nat, plan: seq<nat>, j: nat)
    requires Complete(tr, threads) && IsPlan(tr, threads, plan) && j < |plan| && Names(tr, threads, plan, j, 1)
    ensures IsPlan(tr, threads, NextPlan(plan, j))
  {
    hide Names, Complete;
    var r := NextPlan(plan, j);
    forall q: nat | q < |r|
      ensures Names(tr, threads, r, q, 0)
    {
      if q < j {
        assert r[..q] == r[..j][..q] == plan[..q];
        assert r[q] == r[..j][q] == plan[q];
        NamedStill(tr, threads, plan, r, q, 0, 0);
      } else if q == j {
        NamedStill(tr, threads, plan, r, q, 1, 0);
      } else {
        ZeroNames(tr, threads, r, q);
      }
    }
  }

  lemma NextDigits(plan: seq<nat>, j: nat, m: nat)
    requires j < |plan| && Digits(plan, m) && plan[j] + 1 < m
    ensures Digits(NextPlan(plan, j), m)
  {
    var r := NextPlan(plan, j);
    forall q | 0 <= q < |r|
      ensures r[q] < m
    {
      if q < j {
        assert r[q] == r[..j][q] == plan[q];
      }
    }
  }

  lemma NextChoices(plan: seq<nat>, choices: seq<nat>, j: nat)
    requires j < |plan| == |choices| && forall q {:trigger choices[q]} :: 0 <= q <= j ==> choices[q] == plan[q]
    ensures forall q {:trigger choices[q]} :: 0 <= q <= j ==> choices[j := choices[j] + 1][q] == NextPlan(plan, j)[q]
  {
    var r := NextPlan(plan, j);
    forall q | 0 <= q <= j
      ensures choices[j := choices[j] + 1][q] == r[q]
    {
      if q < j {
        assert r[q] == r[..j][q] == plan[q];
      }
    }
  }

  /** Rolling back: the books of the next plan, which is larger. */
  lemma NextBook(tr: ScTrace, threads: nat, plan: seq<nat>, choices: seq<nat>, end: nat, curr: nat, j: nat, n: nat)
    requires Complete(tr, threads) && Book(tr, threads, plan, choices, end, curr, j)
             && curr == Made(tr, threads, plan, n)
    ensures Book(tr, threads, NextPlan(plan, j), choices[j := choices[j] + 1], j + 1, 0, -1)
    ensures Value(plan, threads) < Value(NextPlan(plan, j), threads)
  {
    hide Names, Complete, Last, Made, IsPlan, Value, RunTo;
    PlanLength(tr, threads, plan);
    NextIsPlan(tr, threads, plan, j);
    var m := MadeAt(tr, threads, plan, n, j);
    DigitBelow(tr, threads, plan, m);
    NextDigits(plan, j, threads);
    ValueGrows(plan, NextPlan(plan, j), threads, j);
    NextChoices(plan, choices, j);
  }

  lemma PlanLength(tr: ScTrace, threads: nat, plan: seq<nat>)
    requires Complete(tr, threads) && IsPlan(tr, threads, plan)
    ensures |plan| == |tr|
  {
  }
  lemma GenLists(tr: ScTrace, threads: nat, g: Gen)
    requires GenOk(tr, threads, g)
    ensures ListsOk(tr, g.lists) && ListsIn(tr, g.lists) && |g.s.cvs| == |tr| && AllSet(g.s)
            && Candidates(tr, threads, g) == NextActions(tr, g.lists, g.s)
    ensures forall i {:trigger Candidates(tr, threads, g)[i]} ::
              0 <= i < |Candidates(tr, threads, g)| ==> Candidates(tr, threads, g)[i] < |tr|
  {
    var _ := Candidates(tr, threads, g);
  }

  /** What the books say when the next choice comes up. */
  lemma BookHas(tr: ScTrace, threads: nat, plan: seq<nat>, choices: seq<nat>, end: nat, curr: nat, last: int, n: nat)
    requires Complete(tr, threads) && Book(tr, threads, plan, choices, end, curr, last) && curr < |tr|
    requires var g := RunTo(tr, threads, plan, n); AtChoice(tr, threads, g) && g.used == curr
    ensures |plan| == |choices| == |tr| && plan[curr] < |Candidates(tr, threads, RunTo(tr, threads, plan, n))|
    ensures if curr < end then choices[curr] == plan[curr] else plan[curr] == 0
  {
    hide RunTo, Complete, AtChoice, GenOk;
    assert Names(tr, threads, plan, curr, 0);
    assert NamesAt(tr, threads, plan, curr, 0, RunTo(tr, threads, plan, n));
  }

  /** Recording a choice keeps the books. */
  lemma BookMore(tr: ScTrace, threads: nat, plan: seq<nat>, choices: seq<nat>, choices': seq<nat>, end: nat,
                 curr: nat, last: int, last': int, n: nat)
    requires Complete(tr, threads) && Book(tr, threads, plan, choices, end, curr, last) && curr < |tr|
    requires var g := RunTo(tr, threads, plan, n);
             && AtChoice(tr, threads, g) && g.used == curr
             && |choices| == |choices'| == |plan|
             && last' == (if plan[curr] + 1 < |Candidates(tr, threads, g)| then curr else last)
    requires choices'[curr] == plan[curr]
             && forall q {:trigger choices'[q]} :: 0 <= q < |choices| && q != curr ==> choices'[q] == choices[q]
    ensures Book(tr, threads, plan, choices', end, curr + 1, last')
  {
    hide RunTo, Complete, AtChoice, GenOk, Names, Last, IsPlan;
    if plan[curr] + 1 < |Candidates(tr, threads, RunTo(tr, threads, plan, n))| {
      NamedHere(tr, threads, plan, n, 1);
    } else {
      LastHere(tr, threads, plan, n);
    }
  }
  /** A step of the run, and whether it breaks. */
  lemma NextRun(tr: ScTrace, threads: nat, plan: seq<nat>, n: nat)
    requires Complete(tr, threads) && Candidates(tr, threads, RunTo(tr, threads, plan, n)) != []
    ensures var g := RunTo(tr, threads, plan, n);
            var a := Picked(tr, threads, g, Choice(plan, g.used));
            && RunTo(tr, threads, plan, n + 1) == Taken(tr, threads, g, a).(used := Made(tr, threads, plan, n))
            && BreaksAt(tr, threads, plan, n) == Broke(tr, threads, g, a)
  {
    hide Taken, Candidates, Broke, GenOk, Picked;
    var g := RunTo(tr, threads, plan, n);
    assert RunTo(tr, threads, plan, n + 1) == Advance(tr, threads, g, plan);
  }

  /** What the search has found: a run that does not break, or that all runs do. */
  ghost predicate Found(tr: ScTrace, threads: nat, plan: seq<nat>, n: nat, broke: bool)
    requires Complete(tr, threads)
  {
    if broke then forall other: seq<nat> {:trigger IsPlan(tr, threads, other)} ::
         IsPlan(tr, threads, other) ==> Breaks(tr, threads, other)
    else forall m: nat {:trigger BreaksAt(tr, threads, plan, m)} :: m < n ==> !BreaksAt(tr, threads, plan, m)
  }

  lemma FoundMore(tr: ScTrace, threads: nat, plan: seq<nat>, choices: seq<nat>, end: nat, curr: nat, n: nat,
                  broke: bool)
    requires Complete(tr, threads) && Found(tr, threads, plan, n, broke) && n < |tr| && RuledOut(tr, threads, plan)
    requires curr == Made(tr, threads, plan, n)
             && (BreaksAt(tr, threads, plan, n) ==> Book(tr, threads, plan, choices, end, curr, -1))
    ensures Found(tr, threads, plan, n + 1, broke || BreaksAt(tr, threads, plan, n))
  {
    hide Complete, BreaksAt, Made, RuledOut, Last, Names;
    if BreaksAt(tr, threads, plan, n) {
      AllRuledOut(tr, threads, plan, n);
    }
  }

  /** A result that met a cycle means that no choices avoid it. */
  lemma FoundAll(tr: ScTrace, threads: nat, plan: seq<nat>, broke: bool)
    requires Complete(tr, threads) && IsPlan(tr, threads, plan) && Found(tr, threads, plan, |tr|, broke)
    ensures Breaks(tr, threads, plan) ==>
              forall other: seq<nat> {:trigger IsPlan(tr, threads, other)} ::
                IsPlan(tr, threads, other) ==> Breaks(tr, threads, other)
  {
    hide Complete, BreaksAt, IsPlan;
  }
  lemma RunStart(tr: ScTrace, threads: nat, plan: seq<nat>)
    requires Complete(tr, threads)
    ensures RunTo(tr, threads, plan, 0) == Start(tr, threads) && Found(tr, threads, plan, 0, false)
  {
  }

  lemma BookPlan(tr: ScTrace, threads: nat, plan: seq<nat>, choices: seq<nat>, end: nat, curr: nat, last: int)
    requires Complete(tr, threads) && Book(tr, threads, plan, choices, end, curr, last)
    ensures IsPlan(tr, threads, plan) && |plan| == |tr| && -1 <= last < |tr|
            && Value(plan, threads) < Power(threads, |tr|)
  {
    hide Names, Last, Value, Power;
    ValueBelow(plan, threads);
  }

  lemma BookRuledOut(tr: ScTrace, threads: nat, plan: seq<nat>, choices: seq<nat>, end: nat, curr: nat, last: nat,
                     n: nat)
    requires Complete(tr, threads) && Book(tr, threads, plan, choices, end, curr, last)
             && RuledOut(tr, threads, plan) && n < |tr|
    requires BreaksAt(tr, threads, plan, n) && curr == Made(tr, threads, plan, n)
    ensures last < |plan| && RuledOut(tr, threads, NextPlan(plan, last))
  {
    hide Names, Last, BreaksAt, Made, RuledOut, Complete;
    NextRuledOut(tr, threads, plan, n, last);
  }
}
