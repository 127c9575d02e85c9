/** The search finds an order without a cycle exactly if there is one, although it does not try every candidate. */
module ScComplete {
  import opened Relations
  import opened GraphTheory
  import opened ScTheory
  import opened ScPasses
  import opened ScChoices
  import opened ScGeneration
  import opened ScSearch
  import opened ScFixpoint
  import opened ScSolutions
  import opened ScSettled
  import opened ScLate
  import opened ScTraces
  import opened ScRoutes
  import opened ScOrders
  import opened ScRespected
  import opened ScSettledRuns
  import opened ScLinear
  import opened ScConsistency
  import opened ScPruning

  /** A trace on which the clocks of a state without a cycle are settled. */
  ghost predicate Tractable(tr: ScTrace) {
    Regular(tr) && ReadsBack(tr) && (AllLate(tr) || Apart(tr))
  }

  // ----- any candidates, taken one after the other -----

  /** A state that is reached without a cycle. */
  ghost predicate Sane(tr: ScTrace, threads: nat, g: Gen) {
    && GenOk(tr, threads, g) && Good(tr, g.s) && Backed(tr, g.out, g.s) && IsOrder(tr, g.s) && Respects(tr, g.out, g.s)
    && (!Apart(tr) ==> LateInv(tr, g.out, g.s))
  }

  lemma CandidateFront(tr: ScTrace, threads: nat, g: Gen, a: nat)
    requires GenOk(tr, threads, g) && a in Candidates(tr, threads, g)
    ensures IsFront(tr, g.lists, a)
  {
    hide GenOk;
  }

  lemma SaneSteady(tr: ScTrace, threads: nat, g: Gen, a: nat)
    requires Complete(tr, threads) && Regular(tr) && Sane(tr, threads, g) && a in Candidates(tr, threads, g)
    ensures Steady(tr, threads, g, a)
  {
    hide Complete, GenOk, IsOrder, Respects, Backed, Own, Closed, Candidates, LateInv, Apart, Started, ClocksDecide;
    CandidateFront(tr, threads, g, a);
    SettledUnblocks(tr, threads, g);
  }

  /** Taking any candidate: a cycle, or such a state again. */
  lemma SaneTaken(tr: ScTrace, threads: nat, g: Gen, a: nat)
    requires Complete(tr, threads) && Tractable(tr) && Sane(tr, threads, g) && a in Candidates(tr, threads, g)
             && IsFront(tr, g.lists, a)
    ensures var g' := Taken(tr, threads, g, a); g'.s.cyclic || Sane(tr, threads, g')
  {
    hide Complete, GenOk, IsOrder, Respects, Backed, Candidates, LateInv, Apart, AllLate, Regular, ReadsBack, Steady,
         Taken, Good;
    SaneSteady(tr, threads, g, a);
    TakenGood(tr, threads, g, a);
    TakenBacked(tr, threads, g, a);
    if Apart(tr) {
      ApartTaken(tr, threads, g, a);
    } else {
      LateTaken(tr, threads, g, a);
    }
    if !Taken(tr, threads, g, a).s.cyclic {
      TakenRespects(tr, threads, g, a);
    }
  }

  lemma RunSane(tr: ScTrace, threads: nat, plan: seq<nat>, n: nat)
    requires Complete(tr, threads) && Tractable(tr) && n <= |tr| && !RunTo(tr, threads, plan, n).s.cyclic
    ensures Sane(tr, threads, RunTo(tr, threads, plan, n)) && |RunTo(tr, threads, plan, n).out| == n
  {
    hide Complete, RunTo, IsOrder, Respects, Backed, LateInv, Apart, AllLate, Regular, ReadsBack, Good, GenOk;
    RunsSettle(tr, threads, plan, n);
    RunRespected(tr, threads, plan, n);
    RunGood(tr, threads, plan, n);
    RunBacked(tr, threads, plan, n);
    if !Apart(tr) {
      LateRun(tr, threads, plan, n);
    }
  }

  /** From g on, each of these is a candidate when its turn comes. */
  ghost predicate Allowed(tr: ScTrace, threads: nat, g: Gen, takes: seq<nat>)
    requires Complete(tr, threads) && GenOk(tr, threads, g)
    decreases |takes|
  {
    takes == [] || (takes[0] in Candidates(tr, threads, g)
                    && (CandidateFront(tr, threads, g, takes[0]);
                        Allowed(tr, threads, Taken(tr, threads, g, takes[0]), takes[1..])))
  }

  /** Where they lead. */
  ghost function End(tr: ScTrace, threads: nat, g: Gen, takes: seq<nat>): (e: Gen)
    requires Complete(tr, threads) && GenOk(tr, threads, g) && Allowed(tr, threads, g, takes)
    ensures GenOk(tr, threads, e)
    decreases |takes|
  {
    if takes == [] then g
    else
      CandidateFront(tr, threads, g, takes[0]);
      End(tr, threads, Taken(tr, threads, g, takes[0]), takes[1..])
  }

  lemma {:induction false} EndGrows(tr: ScTrace, threads: nat, g: Gen, takes: seq<nat>)
    requires Complete(tr, threads) && GenOk(tr, threads, g) && Allowed(tr, threads, g, takes)
    ensures g.s.cyclic ==> End(tr, threads, g, takes).s.cyclic
    ensures End(tr, threads, g, takes).out == g.out + takes
    decreases |takes|
  {
    hide Complete, GenOk, Candidates, Taken, IsFront;
    if takes == [] {
      assert g.out + takes == g.out;
    } else {
      CandidateFront(tr, threads, g, takes[0]);
      TakenGrows(tr, threads, g, takes[0]);
      EndGrows(tr, threads, Taken(tr, threads, g, takes[0]), takes[1..]);
      assert g.out + [takes[0]] + takes[1..] == g.out + takes;
    }
  }

  /** Candidates of whatever kind that take in the whole trace without a cycle make a lawful order. */
  lemma {:induction false} EndLawful(tr: ScTrace, threads: nat, g: Gen, takes: seq<nat>)
    requires Complete(tr, threads) && Tractable(tr) && Sane(tr, threads, g) && Allowed(tr, threads, g, takes)
    requires |g.out| + |takes| == |tr| && !End(tr, threads, g, takes).s.cyclic
    ensures Lawful(tr, g.out + takes)
    decreases |takes|
  {
    hide Complete, Candidates, Taken, IsFront, Tractable, Good, Backed, IsOrder, LateInv, Apart, Past, Forced, Lawful;
    if takes == [] {
      assert g.out + takes == g.out;
      SaneLawful(tr, threads, g);
    } else {
      var a := takes[0];
      CandidateFront(tr, threads, g, a);
      var g' := Taken(tr, threads, g, a);
      EndGrows(tr, threads, g', takes[1..]);
      SaneTaken(tr, threads, g, a);
      EndLawful(tr, threads, g', takes[1..]);
      assert g.out + [a] + takes[1..] == g.out + takes;
    }
  }

  lemma SaneLawful(tr: ScTrace, threads: nat, g: Gen)
    requires Sane(tr, threads, g) && |g.out| == |tr|
    ensures Lawful(tr, g.out)
  {
    hide Good, Backed, IsOrder, LateInv, Apart, Past, Forced, FollowsFirst, ThirdFirst, Interleaving, Ordered;
    AllEmitted(tr, g.out);
  }

  // ----- choices that lead to a lawful order -----

  /** The plan with the given choice at u, and the first candidate at every later one. */
  ghost function Choosing(plan: seq<nat>, u: nat, k: nat): (r: seq<nat>)
    requires u < |plan|
    ensures |r| == |plan| && r[..u] == plan[..u] && r[u] == k && forall q :: u < q < |r| ==> r[q] == 0
  {
    plan[..u] + [k] + seq(|plan| - u - 1, _ => 0)
  }

  lemma ChoosingIsPlan(tr: ScTrace, threads: nat, plan: seq<nat>, n: nat, k: nat)
    requires Complete(tr, threads) && IsPlan(tr, threads, plan)
    requires var g := RunTo(tr, threads, plan, n);
             AtChoice(tr, threads, g) && g.used < |plan| && k < |Candidates(tr, threads, g)|
    ensures var plan' := Choosing(plan, RunTo(tr, threads, plan, n).used, k);
            IsPlan(tr, threads, plan') && RunTo(tr, threads, plan', n) == RunTo(tr, threads, plan, n)
  {
    hide Names, Complete, RunTo, GenOk, AtChoice, Candidates;
    var u := RunTo(tr, threads, plan, n).used;
    var plan' := Choosing(plan, u, k);
    SamePrefix(tr, threads, plan, plan', u, n);
    NamedHere(tr, threads, plan', n, 0);
    forall q: nat | q < |plan'|
      ensures Names(tr, threads, plan', q, 0)
    {
      if q < u {
        assert plan'[..q] == plan'[..u][..q] == plan[..q];
        assert plan'[q] == plan'[..u][q] == plan[q];
        NamedStill(tr, threads, plan, plan', q, 0, 0);
      } else if q > u {
        ZeroNames(tr, threads, plan', q);
      }
    }
  }

  lemma TakenGoesOn(tr: ScTrace, threads: nat, g: Gen, a: nat, order: seq<nat>) returns (order': seq<nat>)
    requires Complete(tr, threads) && Tractable(tr) && Sane(tr, threads, g) && ListsIn(tr, g.lists)
    requires Lawful(tr, order) && g.out < order && Within(g.s, ClocksIn(tr, order))
    requires Candidates(tr, threads, g) != []
             && Prune(tr, g.lists, g.s, Candidates(tr, threads, g)) == Some(a)
    ensures Lawful(tr, order') && g.out + [a] <= order'
  {
    hide Complete, Sane, ReadsBack, AllLate, Apart, Lawful, Within, ClocksIn, Candidates, Prune, Steady, GenOk, ListsIn;
    SaneSteady(tr, threads, g, a);
    order' := PrunedGoesOn(tr, threads, g, a, order);
  }

  /** A step of a run that heads for a lawful order: the run goes on to one, with its next choice set if need be. */
  lemma PlanStep(tr: ScTrace, threads: nat, plan: seq<nat>, n: nat, order: seq<nat>)
    returns (plan': seq<nat>, order': seq<nat>)
    requires Complete(tr, threads) && Tractable(tr) && IsPlan(tr, threads, plan) && n < |tr|
    requires Lawful(tr, order) && |RunTo(tr, threads, plan, n).out| == n && RunTo(tr, threads, plan, n).out <= order
    ensures IsPlan(tr, threads, plan') && RunTo(tr, threads, plan', n) == RunTo(tr, threads, plan, n)
    ensures var u := RunTo(tr, threads, plan, n).used; u <= |plan| == |plan'| && plan'[..u] == plan[..u]
    ensures Lawful(tr, order') && |RunTo(tr, threads, plan', n + 1).out| == n + 1
            && RunTo(tr, threads, plan', n + 1).out <= order'
  {
    hide Complete, Tractable, IsPlan, Lawful, RunTo, Sane, Within, ClocksIn, Candidates, Prune, Taken, GenOk, ListsIn;
    var g := RunTo(tr, threads, plan, n);
    LawfulIs(tr, order);
    InterleavingHas(tr, order, 0);
    PlanLength(tr, threads, plan);
    RunWithin(tr, threads, plan, n, order);
    RunSane(tr, threads, plan, n);
    NextOffered(tr, threads, g, order);
    GenLists(tr, threads, g);
    var arr := Candidates(tr, threads, g);
    if !AtChoice(tr, threads, g) {
      plan' := plan;
      var a := Prune(tr, g.lists, g.s, arr).value;
      order' := TakenGoesOn(tr, threads, g, a, order);
      NextRun(tr, threads, plan, n);
    } else {
      var k: nat :| k < |arr| && arr[k] == order[n];
      ChoosingIsPlan(tr, threads, plan, n, k);
      plan', order' := Choosing(plan, g.used, k), order;
      NextRun(tr, threads, plan', n);
      assert Choice(plan', g.used) == k;
      assert g.out + [order[n]] == order[..n + 1];
    }
  }

  /** From any state that goes on to a lawful order, some choices lead to the end without a cycle. */
  lemma {:induction false} PlanFor(tr: ScTrace, threads: nat, plan: seq<nat>, n: nat, order: seq<nat>)
    returns (plan': seq<nat>)
    requires Complete(tr, threads) && Tractable(tr) && IsPlan(tr, threads, plan) && n <= |tr|
    requires Lawful(tr, order) && |RunTo(tr, threads, plan, n).out| == n && RunTo(tr, threads, plan, n).out <= order
    ensures IsPlan(tr, threads, plan') && !RunTo(tr, threads, plan', |tr|).s.cyclic
    ensures RunTo(tr, threads, plan', n) == RunTo(tr, threads, plan, n)
    ensures var u := RunTo(tr, threads, plan, n).used; u <= |plan| == |plan'| && plan'[..u] == plan[..u]
    decreases |tr| - n
  {
    hide Complete, Tractable, IsPlan, Lawful, RunTo, GenOk;
    PlanLength(tr, threads, plan);
    if n == |tr| {
      plan' := plan;
      RunWithin(tr, threads, plan, n, order);
    } else {
      var p, o := PlanStep(tr, threads, plan, n, order);
      plan' := PlanFor(tr, threads, p, n + 1, o);
      var u, v := RunTo(tr, threads, plan, n).used, RunTo(tr, threads, p, n + 1).used;
      UsedGrows(tr, threads, p, n, n + 1);
      assert plan'[..u] == plan'[..v][..u] == p[..v][..u] == plan[..u];
      SamePrefix(tr, threads, plan, plan', u, n);
    }
  }

  /**
   * Pruning loses nothing. In a state of a run, let any candidates be taken one after the other, also such as the
   * search would not try, until the trace is complete and without a cycle. Then the search, which takes a candidate
   * without a choice where it can, has choices that go on from the same state to the end without a cycle.
   */
  lemma PruningLosesNothing(tr: ScTrace, threads: nat, plan: seq<nat>, n: nat,
                            takes: seq<nat>) returns (plan': seq<nat>)
    requires Complete(tr, threads) && Tractable(tr) && IsPlan(tr, threads, plan) && n + |takes| == |tr|
    requires Allowed(tr, threads, RunTo(tr, threads, plan, n), takes)
             && !End(tr, threads, RunTo(tr, threads, plan, n), takes).s.cyclic
    ensures IsPlan(tr, threads, plan') && RunTo(tr, threads, plan', n) == RunTo(tr, threads, plan, n)
            && !RunTo(tr, threads, plan', |tr|).s.cyclic
  {
    hide Complete, Tractable, IsPlan, Lawful, RunTo, Allowed, End, GenOk, Sane;
    var g := RunTo(tr, threads, plan, n);
    EndGrows(tr, threads, g, takes);
    RunSane(tr, threads, plan, n);
    EndLawful(tr, threads, g, takes);
    plan' := PlanFor(tr, threads, plan, n, g.out + takes);
  }

  // ----- the whole search -----

  lemma EndsUnbroken(tr: ScTrace, threads: nat, plan: seq<nat>)
    requires Complete(tr, threads) && !RunTo(tr, threads, plan, |tr|).s.cyclic
    ensures !Breaks(tr, threads, plan)
  {
    hide Complete, RunTo, GenOk, Candidates, Taken, Picked;
    forall n: nat | n < |tr|
      ensures !BreaksAt(tr, threads, plan, n)
    {
      NoneBefore(tr, threads, plan, n + 1, |tr|);
      var g := RunTo(tr, threads, plan, n);
      if Candidates(tr, threads, g) != [] {
        NextRun(tr, threads, plan, n);
      }
    }
  }

  lemma {:induction false} UnbrokenEnds(tr: ScTrace, threads: nat, plan: seq<nat>, n: nat)
    requires Complete(tr, threads) && Tractable(tr) && n <= |tr| && !Breaks(tr, threads, plan)
             && !RunTo(tr, threads, plan, 0).s.cyclic
    ensures !RunTo(tr, threads, plan, n).s.cyclic
    decreases n
  {
    hide Complete, GenOk, Taken, Candidates, Picked, RunTo, ClocksDecide, BreaksAt, Broke, Regular, ReadsBack, AllLate,
         Apart;
    if n > 0 {
      UnbrokenEnds(tr, threads, plan, n - 1);
      RunsDecide(tr, threads, plan, n - 1);
      var g := RunTo(tr, threads, plan, n - 1);
      DecidedNext(tr, threads, g);
      NextRun(tr, threads, plan, n - 1);
      PickedIn(tr, threads, g, Choice(plan, g.used));
      var a := Picked(tr, threads, g, Choice(plan, g.used));
      assert !BreaksAt(tr, threads, plan, n - 1);
      if Taken(tr, threads, g, a).s.cyclic {
        OnlyBreaks(tr, threads, g, a);
      }
    }
  }

  /** If some order keeps to every rule, there are choices that avoid a cycle, and a search that finds none fails. */
  lemma LawfulAvoids(tr: ScTrace, threads: nat, order: seq<nat>) returns (plan: seq<nat>)
    requires Complete(tr, threads) && Tractable(tr) && Lawful(tr, order)
    ensures IsPlan(tr, threads, plan) && !Breaks(tr, threads, plan)
  {
    hide Complete, Tractable, IsPlan, Lawful, RunTo, GenOk, Breaks;
    var zero := seq(|tr|, _ => 0);
    ZeroIsPlan(tr, threads, zero);
    assert RunTo(tr, threads, zero, 0).out <= order;
    plan := PlanFor(tr, threads, zero, 0, order);
    EndsUnbroken(tr, threads, plan);
  }

  /**
   * The search, which gives up only when all plans break, ends without a cycle exactly if some order of the trace
   * keeps to every rule.
   */
  lemma SearchExactly(tr: ScTrace, threads: nat, plan: seq<nat>)
    requires Complete(tr, threads) && Tractable(tr)
    requires Breaks(tr, threads, plan) ==>
               forall other: seq<nat> {:trigger IsPlan(tr, threads, other)} ::
                 IsPlan(tr, threads, other) ==> Breaks(tr, threads, other)
    ensures !RunTo(tr, threads, plan, |tr|).s.cyclic <==> exists order: seq<nat> :: Lawful(tr, order)
    ensures !RunTo(tr, threads, plan, |tr|).s.cyclic ==> Lawful(tr, RunTo(tr, threads, plan, |tr|).out)
  {
    hide Complete, Tractable, IsPlan, Lawful, RunTo, GenOk, Breaks, Sane;
    if !RunTo(tr, threads, plan, |tr|).s.cyclic {
      RunSane(tr, threads, plan, |tr|);
      SaneLawful(tr, threads, RunTo(tr, threads, plan, |tr|));
    }
    if order: seq<nat> :| Lawful(tr, order) {
      var _ := LawfulAvoids(tr, threads, order);
      StartWithin(tr, threads, plan, order);
      UnbrokenEnds(tr, threads, plan, |tr|);
    }
  }

  // ----- sequential consistency -----

  /** Threads begin after their creation, and joins come after what they wait for. */
  ghost predicate SpawnsFirst(tr: ScTrace, order: seq<nat>) {
    forall a: nat {:trigger tr[a]} :: a < |tr| ==>
      && (tr[a].start && tr[a].creation.Some? ==> Precedes(order, tr[a].creation.value, a))
      && (tr[a].join.Some? ==> Precedes(order, tr[a].join.value, a))
  }

  /** The actions one after the other, each thread in its order, and every read of the last write of its location. */
  ghost predicate SequentiallyConsistent(tr: ScTrace, order: seq<nat>) {
    Consistent(tr, order) && SpawnsFirst(tr, order)
  }

  lemma {:induction false} LastWriteAt(tr: ScTrace, out: seq<nat>, n: nat, loc: nat) returns (i: nat)
    requires n <= |out| && (forall i {:trigger out[i]} :: 0 <= i < |out| ==> out[i] < |tr|)
             && LastWrite(tr, out, n, loc).Some?
    ensures i < n && out[i] == LastWrite(tr, out, n, loc).value && WriteAt(tr, out, i, loc)
    decreases n
  {
    if tr[out[n - 1]].write && tr[out[n - 1]].loc == loc {
      i := n - 1;
    } else {
      i := LastWriteAt(tr, out, n - 1, loc);
    }
  }

  /** What a read observes comes before it, and no write of the location in between. */
  lemma SeenBefore(tr: ScTrace, order: seq<nat>, r: nat)
    requires Consistent(tr, order) && r < |tr| && tr[r].read
    ensures Precedes(order, tr[r].rf, r)
    ensures forall w2: nat :: w2 < |tr| && tr[w2].write && tr[w2].loc == tr[r].loc && Precedes(order, tr[r].rf, w2)
              ==> !Precedes(order, w2, r)
  {
    hide LastWrite, Precedes, Interleaving;
    InterleavingHas(tr, order, r);
    var n := Place(order, r);
    OrderedIn(tr, order);
    assert Sees(tr, order, n);
    var i := LastWriteAt(tr, order, n, tr[r].loc);
    LastWriteIs(tr, order, i, n, tr[r].loc);
    var w := tr[r].rf;
    PlaceIs(tr, order, i);
    PlacePrecedes(tr, order, w, r);
    forall w2: nat | w2 < |tr| && tr[w2].write && tr[w2].loc == tr[r].loc && Precedes(order, w, w2)
      ensures !Precedes(order, w2, r)
    {
      PlacePrecedes(tr, order, w, w2);
      PlacePrecedes(tr, order, w2, r);
      InterleavingHas(tr, order, w2);
      assert WriteAt(tr, order, Place(order, w2), tr[r].loc);
    }
  }

  lemma PlaceIs(tr: ScTrace, order: seq<nat>, i: nat)
    requires Interleaving(tr, order) && i < |order|
    ensures order[i] < |tr| && order[i] in order && Place(order, order[i]) == i
  {
    OrderedDistinct(tr, order);
  }

  /** Every sequentially consistent order keeps to the rules. */
  lemma ConsistentLawful(tr: ScTrace, threads: nat, order: seq<nat>)
    requires Complete(tr, threads) && SequentiallyConsistent(tr, order)
    ensures Lawful(tr, order)
  {
    hide Complete, Precedes, Interleaving, Sees;
    forall b: nat, a: nat | Follows(tr, b, a) && a in order
      ensures Precedes(order, b, a)
    {
      if tr[a].read && tr[a].rf == b {
        SeenBefore(tr, order, a);
      } else if Previous(tr, b, a) {
        ThreadFirst(tr, order, b, a);
      }
    }
    forall r: nat, w2: nat | Third(tr, r, w2) && Precedes(order, tr[r].rf, w2)
      ensures Precedes(order, r, w2)
    {
      SeenBefore(tr, order, r);
      OneFirst(tr, order, r, w2);
    }
  }

  lemma ThreadFirst(tr: ScTrace, order: seq<nat>, b: nat, a: nat)
    requires Interleaving(tr, order) && b < a < |tr| && tr[b].tid == tr[a].tid
    ensures Precedes(order, b, a)
  {
    OneFirst(tr, order, b, a);
  }

  /** And on a trace whose reads no write of the reader's or the writer's thread can hide from, the other way round. */
  lemma LawfulConsistent(tr: ScTrace, threads: nat, order: seq<nat>)
    requires Complete(tr, threads) && Plain(tr) && Lawful(tr, order)
    ensures SequentiallyConsistent(tr, order)
  {
    hide Complete, Precedes, Plain, Sees, Shadowed, ThirdFirst;
    forall n: nat | n < |order|
      ensures Sees(tr, order, n)
    {
      PlainOpen(tr, order, n);
      if tr[order[n]].read {
        SeesUnshadowed(tr, threads, order, n);
      } else {
        NotRead(tr, order, n);
      }
    }
    forall a: nat | a < |tr|
      ensures tr[a].start && tr[a].creation.Some? ==> Precedes(order, tr[a].creation.value, a)
      ensures tr[a].join.Some? ==> Precedes(order, tr[a].join.value, a)
    {
      CompleteAt(tr, threads, a);
      assert tr[a].start && tr[a].creation.Some? ==> Follows(tr, tr[a].creation.value, a);
      assert tr[a].join.Some? ==> Follows(tr, tr[a].join.value, a);
    }
  }

  lemma NotRead(tr: ScTrace, order: seq<nat>, n: nat)
    requires Ordered(tr, order) && n < |order| && !tr[order[n]].read
    ensures Sees(tr, order, n)
  {
  }

  /**
   * What the flag at the end of the search means. If it is up, no order of the trace is sequentially consistent; and
   * if no write of the reader's or the writer's thread can come in between, it is down exactly if one is.
   */
  lemma FlagExactly(tr: ScTrace, threads: nat, cyclic: bool)
    requires Complete(tr, threads) && (!cyclic <==> exists order: seq<nat> :: Lawful(tr, order))
    ensures cyclic ==> !exists order: seq<nat> :: SequentiallyConsistent(tr, order)
    ensures Plain(tr) && !cyclic ==> exists order: seq<nat> :: SequentiallyConsistent(tr, order)
  {
    hide Complete, Plain, Lawful, SequentiallyConsistent;
    if order: seq<nat> :| SequentiallyConsistent(tr, order) {
      ConsistentLawful(tr, threads, order);
    }
    if order: seq<nat> :| Lawful(tr, order) {
      if Plain(tr) {
        LawfulConsistent(tr, threads, order);
      }
    }
  }
}
