/** Orders that keep to every rule, as clocks: no run that such an order goes on from has met a cycle. */
module ScLinear {
  import opened Relations
  import opened Clocks
  import opened ScTheory
  import opened ScPasses
  import opened ScChoices
  import opened ScGeneration
  import opened ScSearch
  import opened ScFixpoint
  import opened ScSolutions
  import opened ScOrders
  import opened ScRespected

  /** An order of the whole trace that keeps to every rule. */
  ghost predicate Lawful(tr: ScTrace, order: seq<nat>) {
    Interleaving(tr, order) && FollowsFirst(tr, order) && ThirdFirst(tr, order)
  }

  // ----- the clocks of an order -----

  ghost function Place(order: seq<nat>, x: nat): (i: nat)
    requires x in order
    ensures i < |order| && order[i] == x
  {
    var i: nat :| i < |order| && order[i] == x;
    i
  }

  /** A clock that names the first k actions. */
  ghost function UpTo(tr: ScTrace, order: seq<nat>, k: nat): Clock
    requires Ordered(tr, order) && k <= |order|
  {
    if k == 0 then [] else Join(UpTo(tr, order, k - 1), Create([], tr[order[k - 1]].tid, order[k - 1] + 1))
  }

  lemma {:induction false} UpToTop(tr: ScTrace, order: seq<nat>, k: nat, t: nat) returns (i: nat)
    requires Ordered(tr, order) && k <= |order| && At(UpTo(tr, order, k), t) > 0
    ensures i < k && tr[order[i]].tid == t && order[i] + 1 == At(UpTo(tr, order, k), t)
    decreases k
  {
    hide Ordered;
    assert order[k - 1] < |tr| by { OrderedAt(tr, order, k - 1); }
    if tr[order[k - 1]].tid == t && order[k - 1] + 1 == At(UpTo(tr, order, k), t) {
      i := k - 1;
    } else {
      i := UpToTop(tr, order, k - 1, t);
      OrderedAt(tr, order, i);
    }
  }

  lemma OrderedAt(tr: ScTrace, order: seq<nat>, i: nat)
    requires Ordered(tr, order) && i < |order|
    ensures order[i] < |tr|
  {
  }

  lemma {:induction false} UpToGrows(tr: ScTrace, order: seq<nat>, j: nat, k: nat)
    requires Ordered(tr, order) && j <= k <= |order|
    ensures Leq(UpTo(tr, order, j), UpTo(tr, order, k))
    decreases k
  {
    hide Ordered;
    if j < k {
      UpToGrows(tr, order, j, k - 1);
      OrderedAt(tr, order, k - 1);
      LeqTrans(UpTo(tr, order, j), UpTo(tr, order, k - 1), UpTo(tr, order, k));
    }
  }

  /** It names no others. */
  lemma UpToExactly(tr: ScTrace, order: seq<nat>, k: nat, x: nat)
    requires Interleaving(tr, order) && k <= |order| && x < |tr|
    ensures Since(UpTo(tr, order, k), tr[x].tid, x) <==> Place(order, x) < k
  {
    var i, t := Place(order, x), tr[x].tid;
    if i < k {
      assert Since(UpTo(tr, order, i + 1), t, x);
      UpToGrows(tr, order, i + 1, k);
      assert At(UpTo(tr, order, i + 1), t) <= At(UpTo(tr, order, k), t);
    } else if Since(UpTo(tr, order, k), t, x) {
      var _ := UpToTop(tr, order, k, t);
    }
  }

  /** Every action's clock names what comes no later. */
  ghost function ClocksIn(tr: ScTrace, order: seq<nat>): (c: seq<Clock>)
    requires Interleaving(tr, order)
    ensures |c| == |tr| && forall x :: 0 <= x < |tr| ==> c[x] == UpTo(tr, order, Place(order, x) + 1)
  {
    seq(|tr|, x requires 0 <= x < |tr| => UpTo(tr, order, Place(order, x) + 1))
  }

  lemma PlacePrecedes(tr: ScTrace, order: seq<nat>, x: nat, a: nat)
    requires Interleaving(tr, order) && x < |tr| && a < |tr|
    ensures Precedes(order, x, a) <==> Place(order, x) < Place(order, a)
  {
    OrderedDistinct(tr, order);
    if Precedes(order, x, a) {
      var i, j :| 0 <= i < j < |order| && order[i] == x && order[j] == a;
      assert i == Place(order, x) && j == Place(order, a);
    } else {
      assert !(Place(order, x) < Place(order, a));
    }
  }

  /** What is in a beginning of the order. */
  lemma PlacedIn(tr: ScTrace, out: seq<nat>, order: seq<nat>, x: nat)
    requires Interleaving(tr, order) && out <= order && x < |tr|
    ensures x in out <==> Place(order, x) < |out|
  {
    OrderedDistinct(tr, order);
    var i := Place(order, x);
    if i < |out| {
      assert out[i] == order[i];
    }
  }

  lemma NamedIn(tr: ScTrace, order: seq<nat>, x: nat, a: nat)
    requires Interleaving(tr, order) && x < |tr| && a < |tr|
    ensures Since(ClocksIn(tr, order)[a], tr[x].tid, x) <==> x == a || Precedes(order, x, a)
  {
    hide Interleaving, Precedes, UpTo;
    InterleavingHas(tr, order, x);
    InterleavingHas(tr, order, a);
    UpToExactly(tr, order, Place(order, a) + 1, x);
    PlacePrecedes(tr, order, x, a);
  }

  lemma InterleavingHas(tr: ScTrace, order: seq<nat>, x: nat)
    requires Interleaving(tr, order) && x < |tr|
    ensures x in order && Ordered(tr, order) && |order| == |tr|
  {
  }

  lemma LeqIn(tr: ScTrace, order: seq<nat>, x: nat, a: nat)
    requires Interleaving(tr, order) && x < |tr| && a < |tr|
    ensures var c := ClocksIn(tr, order); Leq(c[x], c[a]) <==> x == a || Precedes(order, x, a)
  {
    hide Interleaving, Precedes, UpTo;
    var c := ClocksIn(tr, order);
    InterleavingHas(tr, order, x);
    InterleavingHas(tr, order, a);
    PlacePrecedes(tr, order, x, a);
    if x == a || Precedes(order, x, a) {
      UpToGrows(tr, order, Place(order, x) + 1, Place(order, a) + 1);
    } else if Leq(c[x], c[a]) {
      NamedIn(tr, order, x, x);
      assert At(c[x], tr[x].tid) <= At(c[a], tr[x].tid);
      NamedIn(tr, order, x, a);
    }
  }

  /** The clocks of a lawful order respect every rule, and are those of a linear order. */
  lemma LawfulSolves(tr: ScTrace, order: seq<nat>)
    requires Lawful(tr, order)
    ensures IsSolution(tr, ClocksIn(tr, order)) && Strict(tr, ClocksIn(tr, order))
  {
    hide Interleaving, Precedes, UpTo, Follows, Leq;
    var c := ClocksIn(tr, order);
    forall a: nat | a < |tr|
      ensures Since(c[a], tr[a].tid, a)
    {
      NamedIn(tr, order, a, a);
    }
    forall b: nat, a: nat | Follows(tr, b, a)
      ensures b < |tr| && a < |tr| && Leq(c[b], c[a])
    {
      FollowsIn(tr, b, a);
      InterleavingHas(tr, order, a);
      LeqIn(tr, order, b, a);
    }
    forall r: nat, w2: nat | Third(tr, r, w2)
      ensures AfterRule(tr, c, r, w2) && BeforeRule(tr, c, r, w2)
    {
      LawfulRules(tr, order, r, w2);
    }
    forall b: nat, a: nat | b < |tr| && a < |tr| && (b != a || Follows(tr, b, a)) && Leq(c[b], c[a])
      ensures !Since(c[b], tr[a].tid, a)
    {
      LawfulStrict(tr, order, b, a);
    }
  }

  lemma LawfulStrict(tr: ScTrace, order: seq<nat>, b: nat, a: nat)
    requires Lawful(tr, order) && b < |tr| && a < |tr| && (b != a || Follows(tr, b, a))
    requires Leq(ClocksIn(tr, order)[b], ClocksIn(tr, order)[a])
    ensures !Since(ClocksIn(tr, order)[b], tr[a].tid, a)
  {
    hide Precedes, UpTo, Follows, Leq;
    OrderedDistinct(tr, order);
    LeqIn(tr, order, b, a);
    NamedIn(tr, order, a, b);
    if Precedes(order, b, a) {
      PrecedesIrreflexive(order, b, a);
    }
  }

  lemma LawfulRules(tr: ScTrace, order: seq<nat>, r: nat, w2: nat)
    requires Lawful(tr, order) && Third(tr, r, w2)
    ensures AfterRule(tr, ClocksIn(tr, order), r, w2) && BeforeRule(tr, ClocksIn(tr, order), r, w2)
  {
    hide UpTo, Follows, Leq, FollowsFirst, Precedes;
    var w := tr[r].rf;
    OrderedDistinct(tr, order);
    NamedIn(tr, order, w, w2);
    NamedIn(tr, order, w2, r);
    LeqIn(tr, order, r, w2);
    LeqIn(tr, order, w2, w);
    if Precedes(order, w2, r) {
      PrecedesIrreflexive(order, w2, r);
      OneFirst(tr, order, w, w2);
    }
  }

  lemma OneFirst(tr: ScTrace, order: seq<nat>, x: nat, y: nat)
    requires Interleaving(tr, order) && x < |tr| && y < |tr| && x != y
    ensures Precedes(order, x, y) || Precedes(order, y, x)
  {
    PlacePrecedes(tr, order, x, y);
    PlacePrecedes(tr, order, y, x);
    assert order[Place(order, x)] == x && order[Place(order, y)] == y;
  }

  // ----- a step towards a lawful order -----

  /** The actions to come, none of which is act. */
  ghost predicate ToCome(tr: ScTrace, order: seq<nat>, act: nat, l: seq<nat>) {
    forall j {:trigger l[j]} :: 0 <= j < |l| ==> l[j] < |tr| && Precedes(order, act, l[j])
  }

  lemma PutWithin(tr: ScTrace, s: Vectors, a: nat, b: nat, order: seq<nat>)
    requires Lawful(tr, order) && a < |s.cvs| == |tr| && b < |tr| && s.cvs[a].Some? && Precedes(order, b, a)
             && Within(s, ClocksIn(tr, order))
    ensures Within(Merge(tr, s, a, b).0, ClocksIn(tr, order)) && (!s.cyclic ==> !Merge(tr, s, a, b).0.cyclic)
  {
    hide Within, UpTo, FollowsFirst, ThirdFirst, Merge, Strict, IsSolution, Precedes, Leq, Follows;
    OrderedDistinct(tr, order);
    PrecedesIrreflexive(order, b, a);
    LeqIn(tr, order, b, a);
    LawfulSolves(tr, order);
    MergeWithin(tr, s, a, b, ClocksIn(tr, order));
  }

  lemma {:induction false} AfterActWithin(tr: ScTrace, s: Vectors, act: nat, l: seq<nat>, k: nat, order: seq<nat>)
    requires Lawful(tr, order) && act < |tr| == |s.cvs| && k <= |l| && AllSet(s) && ToCome(tr, order, act, l)
    requires Within(s, ClocksIn(tr, order)) && !s.cyclic
    ensures var p := AfterAct(tr, s, act, l, k).0; Within(p, ClocksIn(tr, order)) && !p.cyclic
    decreases |l| - k
  {
    hide Within, Merge, Lawful, Precedes, ClocksIn;
    assert Interleaving(tr, order) by { LawfulIs(tr, order); }
    if k < |l| {
      PutWithin(tr, s, l[k], act, order);
      AfterActWithin(tr, s, act, l, k + 1, order);
    }
  }

  lemma LawfulIs(tr: ScTrace, order: seq<nat>)
    requires Lawful(tr, order)
    ensures Interleaving(tr, order)
  {
  }

  lemma {:induction false} UpdateWithin(tr: ScTrace, lists: Lists, s: Vectors, changed: bool, act: nat, i: nat,
                                        order: seq<nat>)
    requires Lawful(tr, order) && act < |tr| == |s.cvs| && ListsIn(tr, lists) && AllSet(s) && i <= |lists|
    requires forall t {:trigger lists[t]} :: 0 <= t < |lists| && t != tr[act].tid ==> ToCome(tr, order, act, lists[t])
    requires Within(s, ClocksIn(tr, order)) && !s.cyclic
    ensures var p := UpdateConstraints(tr, lists, s, changed, act, i).0; Within(p, ClocksIn(tr, order)) && !p.cyclic
    decreases |lists| - i
  {
    hide Within, AfterAct, Lawful, ClocksIn, ToCome;
    assert Interleaving(tr, order) by { LawfulIs(tr, order); }
    if i < |lists| {
      if i == tr[act].tid {
        UpdateWithin(tr, lists, s, changed, act, i + 1, order);
      } else {
        var p := AfterAct(tr, s, act, lists[i], 0);
        AfterActWithin(tr, s, act, lists[i], 0, order);
        UpdateWithin(tr, lists, p.0, changed || p.1, act, i + 1, order);
      }
    }
  }

  /** What is left of other threads comes after the next action of the order. */
  lemma LeftToCome(tr: ScTrace, threads: nat, g: Gen, a: nat, t: nat, order: seq<nat>)
    requires GenOk(tr, threads, g) && Interleaving(tr, order) && g.out + [a] <= order && a < |tr|
    requires t < |g.lists| && t != tr[a].tid
    ensures ToCome(tr, order, a, g.lists[t])
  {
    var l, n := g.lists[t], |g.out|;
    assert order[n] == (g.out + [a])[n] == a;
    forall j | 0 <= j < |l|
      ensures l[j] < |tr| && Precedes(order, a, l[j])
    {
      assert ListOk(tr, l, t) && After(tr, l, g.out, t);
      assert l[j] !in g.out;
      PlacedIn(tr, g.out, order, l[j]);
    }
  }

  /** Taking the next action of a lawful order keeps the clocks below those of the order, and meets no cycle. */
  lemma TakenWithin(tr: ScTrace, threads: nat, g: Gen, a: nat, order: seq<nat>)
    requires Complete(tr, threads) && GenOk(tr, threads, g) && IsFront(tr, g.lists, a)
    requires Lawful(tr, order) && g.out + [a] <= order && Within(g.s, ClocksIn(tr, order)) && !g.s.cyclic
    ensures var s := Taken(tr, threads, g, a).s; Within(s, ClocksIn(tr, order)) && !s.cyclic
  {
    hide Computed, UpdateConstraints, Split, Complete, Bounded, Within, Interleaving, FollowsFirst, ThirdFirst,
         ToCome, ClocksIn, IsSolution, Strict;
    var lists := Pop(g.lists, tr[a].tid);
    PopOk(tr, g.lists, a);
    forall t | 0 <= t < |lists| && t != tr[a].tid
      ensures ToCome(tr, order, a, lists[t])
    {
      LeftToCome(tr, threads, g, a, t, order);
    }
    UpdateWithin(tr, lists, g.s, false, a, 0, order);
    UpdateStep(tr, lists, g.s, false, a, 0, threads);
    var p := UpdateConstraints(tr, lists, g.s, false, a, 0);
    if p.1 {
      LawfulSolves(tr, order);
      ComputedWithin(tr, p.0, true, threads, ClocksIn(tr, order));
    }
  }

  /**
   * As long as what a run has emitted goes on to some order that keeps to every rule, the run has met no cycle,
   * whatever its choices were.
   */
  lemma {:induction false} RunWithin(tr: ScTrace, threads: nat, plan: seq<nat>, n: nat, order: seq<nat>)
    requires Complete(tr, threads) && Lawful(tr, order) && RunTo(tr, threads, plan, n).out <= order
    ensures var s := RunTo(tr, threads, plan, n).s; Within(s, ClocksIn(tr, order)) && !s.cyclic
    decreases n
  {
    hide Complete, Lawful, GenOk, Within, RunTo, ClocksIn;
    LawfulIs(tr, order);
    if n == 0 {
      StartWithin(tr, threads, plan, order);
    } else {
      OutStep(tr, threads, plan, n - 1);
      RunWithin(tr, threads, plan, n - 1, order);
      StepWithin(tr, threads, plan, n - 1, order);
    }
  }

  lemma StartWithin(tr: ScTrace, threads: nat, plan: seq<nat>, order: seq<nat>)
    requires Complete(tr, threads) && Lawful(tr, order)
    ensures var s := RunTo(tr, threads, plan, 0).s; Within(s, ClocksIn(tr, order)) && !s.cyclic
  {
    hide Complete, Computed, ClocksIn, IsSolution, Strict, GenOk;
    LawfulSolves(tr, order);
    ComputedWithin(tr, Unset(|tr|), true, threads, ClocksIn(tr, order));
  }

  lemma StepWithin(tr: ScTrace, threads: nat, plan: seq<nat>, n: nat, order: seq<nat>)
    requires Complete(tr, threads) && Lawful(tr, order) && RunTo(tr, threads, plan, n + 1).out <= order
    requires var s := RunTo(tr, threads, plan, n).s; Within(s, ClocksIn(tr, order)) && !s.cyclic
    ensures var s := RunTo(tr, threads, plan, n + 1).s; Within(s, ClocksIn(tr, order)) && !s.cyclic
  {
    hide Complete, Interleaving, FollowsFirst, ThirdFirst, GenOk, Taken, Candidates, Picked, Within, Advance, ClocksIn;
    var g := RunTo(tr, threads, plan, n);
    if Candidates(tr, threads, g) == [] {
      NoAdvance(tr, threads, g, plan);
    } else {
      NextRun(tr, threads, plan, n);
      TakenWithin(tr, threads, g, Picked(tr, threads, g, Choice(plan, g.used)), order);
    }
  }

  /** And the next action of that order is one of the candidates. */
  lemma NextOffered(tr: ScTrace, threads: nat, g: Gen, order: seq<nat>)
    requires GenOk(tr, threads, g) && Interleaving(tr, order) && g.out < order && Within(g.s, ClocksIn(tr, order))
    ensures ClocksDecide(tr, threads, g) && order[|g.out|] in Candidates(tr, threads, g)
  {
    var n := |g.out|;
    var a := order[n];
    NextFront(tr, threads, g, order);
    Fronts(tr, g.lists);
    NextFree(tr, threads, g, order);
    ReadyHas(g.lists, ClocksOf(g.s), 0, tr[a].tid);
  }

  lemma NextFront(tr: ScTrace, threads: nat, g: Gen, order: seq<nat>)
    requires GenOk(tr, threads, g) && Interleaving(tr, order) && g.out < order
    ensures order[|g.out|] < |tr| && IsFront(tr, g.lists, order[|g.out|])
  {
    var n := |g.out|;
    var a := order[n];
    OrderedDistinct(tr, order);
    assert a !in g.out;
    assert Somewhere(tr, g.lists, g.out, a);
    var t := tr[a].tid;
    var l := g.lists[t];
    assert ListOk(tr, l, t) && Increasing(l) && After(tr, l, g.out, t);
    assert l[0] <= a && l[0] !in g.out;
    PlacedIn(tr, g.out, order, l[0]);
    PlacedIn(tr, g.out, order, a);
    assert Place(order, a) == n;
    assert order[Place(order, l[0])] == l[0];
  }

  lemma NextFree(tr: ScTrace, threads: nat, g: Gen, order: seq<nat>)
    requires GenOk(tr, threads, g) && Interleaving(tr, order) && g.out < order && Within(g.s, ClocksIn(tr, order))
    ensures order[|g.out|] < |tr| && !Blocked(g.lists, ClocksOf(g.s)[order[|g.out|]], tr[order[|g.out|]].tid)
  {
    var n := |g.out|;
    var a := order[n];
    OrderedDistinct(tr, order);
    forall i: nat | i < |g.lists| && i != tr[a].tid && g.lists[i] != []
      ensures !Since(ClocksOf(g.s)[a], i, g.lists[i][0])
    {
      var x := g.lists[i][0];
      assert ListOk(tr, g.lists[i], i);
      FrontLeft(tr, g.lists, g.out, i);
      PlacedIn(tr, g.out, order, x);
      assert Place(order, a) == n;
      if Since(g.s.cvs[a].value, i, x) {
        SinceWithin(g.s, ClocksIn(tr, order), a, i, x);
        NamedIn(tr, order, x, a);
        PlacePrecedes(tr, order, x, a);
      }
    }
  }

  lemma {:induction false} ReadyHas(lists: Lists, clocks: seq<Clock>, t: nat, u: nat)
    requires t <= u < |lists|
             && (forall i {:trigger lists[i]} :: 0 <= i < |lists| && lists[i] != [] ==> lists[i][0] < |clocks|)
    requires lists[u] != [] && !Blocked(lists, clocks[lists[u][0]], u)
    ensures lists[u][0] in Ready(lists, clocks, t)
    decreases |lists| - t
  {
    if t < u {
      ReadyHas(lists, clocks, t + 1, u);
    }
  }
}
