/** Where the orderings in the clocks come from. */
module ScRoutes {
  import opened GraphTheory
  import opened Clocks
  import opened ScTheory
  import opened ScPasses
  import opened ScChoices
  import opened ScGeneration
  import opened ScFixpoint
  import opened ScSolutions

  // ----- edges and routes -----

  /** A choice put b before the write a of its location: b was emitted first. */
  ghost predicate Chosen(tr: ScTrace, out: seq<nat>, b: nat, a: nat) {
    && b < |tr| && a < |tr| && tr[a].write && tr[a].loc == tr[b].loc && tr[a].tid != tr[b].tid
    && exists i {:trigger out[i]} :: 0 <= i < |out| && out[i] == b && a !in out[..i]
  }

  /** The rules put b before a: a third write follows the read, or goes before the write that is read. */
  ghost predicate Ruled(tr: ScTrace, s: Vectors, b: nat, a: nat) {
    || (Third(tr, b, a) && Named(s, a, tr[tr[b].rf].tid, tr[b].rf))
    || (exists r: nat :: Third(tr, r, b) && tr[r].rf == a && Named(s, r, tr[b].tid, b))
  }

  ghost predicate Edge(tr: ScTrace, out: seq<nat>, s: Vectors, b: nat, a: nat) {
    Follows(tr, b, a) || Ruled(tr, s, b, a) || Chosen(tr, out, b, a)
  }

  ghost predicate Hop(tr: ScTrace, out: seq<nat>, s: Vectors, p: seq<nat>, i: nat) {
    i < |p| - 1 && Edge(tr, out, s, p[i], p[i + 1])
  }

  ghost predicate Route(tr: ScTrace, out: seq<nat>, s: Vectors, p: seq<nat>) {
    && p != [] && (forall i {:trigger p[i]} :: 0 <= i < |p| ==> p[i] < |tr|)
    && forall i: nat {:trigger Hop(tr, out, s, p, i)} :: i < |p| - 1 ==> Hop(tr, out, s, p, i)
  }

  /** A route leads from the action that c names in thread t to a. */
  ghost predicate BackedAt(tr: ScTrace, out: seq<nat>, s: Vectors, c: Clock, a: nat, t: nat) {
    At(c, t) > 0 ==>
      exists p: seq<nat> :: Route(tr, out, s, p) && p[|p| - 1] == a && p[0] == At(c, t) - 1 && tr[p[0]].tid == t
  }

  ghost predicate ClockBacked(tr: ScTrace, out: seq<nat>, s: Vectors, c: Clock, a: nat) {
    forall t: nat {:trigger At(c, t)} :: BackedAt(tr, out, s, c, a, t)
  }

  /** Every entry of every clock comes from a route. */
  ghost predicate Backed(tr: ScTrace, out: seq<nat>, s: Vectors) {
    |s.cvs| == |tr|
      && forall a: nat {:trigger s.cvs[a]} :: a < |tr| && s.cvs[a].Some? ==> ClockBacked(tr, out, s, s.cvs[a].value, a)
  }

  // ----- routes stay -----

  lemma NamedGrows(s: Vectors, s': Vectors, a: nat, t: nat, x: nat)
    requires Grew(s, s') && Named(s, a, t, x)
    ensures Named(s', a, t, x)
  {
    assert At(s.cvs[a].value, t) <= At(s'.cvs[a].value, t);
  }

  lemma EdgeGrows(tr: ScTrace, out: seq<nat>, out': seq<nat>, s: Vectors, s': Vectors, b: nat, a: nat)
    requires Grew(s, s') && out <= out' && Edge(tr, out, s, b, a)
    ensures Edge(tr, out', s', b, a)
  {
    hide Grew, Follows, Named;
    if Chosen(tr, out, b, a) {
      var i :| 0 <= i < |out| && out[i] == b && a !in out[..i];
      assert out'[i] == b && out'[..i] == out[..i];
    } else if Third(tr, b, a) && Named(s, a, tr[tr[b].rf].tid, tr[b].rf) {
      NamedGrows(s, s', a, tr[tr[b].rf].tid, tr[b].rf);
    } else if Ruled(tr, s, b, a) {
      var r: nat :| Third(tr, r, b) && tr[r].rf == a && Named(s, r, tr[b].tid, b);
      NamedGrows(s, s', r, tr[b].tid, b);
    }
  }

  lemma RouteGrows(tr: ScTrace, out: seq<nat>, out': seq<nat>, s: Vectors, s': Vectors, p: seq<nat>)
    requires Grew(s, s') && out <= out' && Route(tr, out, s, p)
    ensures Route(tr, out', s', p)
  {
    hide Grew, Edge;
    forall i: nat | i < |p| - 1
      ensures Hop(tr, out', s', p, i)
    {
      assert Hop(tr, out, s, p, i);
      EdgeGrows(tr, out, out', s, s', p[i], p[i + 1]);
    }
  }

  lemma ClockBackedGrows(tr: ScTrace, out: seq<nat>, out': seq<nat>, s: Vectors, s': Vectors, c: Clock, a: nat)
    requires Grew(s, s') && out <= out' && ClockBacked(tr, out, s, c, a)
    ensures ClockBacked(tr, out', s', c, a)
  {
    hide Grew, Hop;
    forall t: nat
      ensures BackedAt(tr, out', s', c, a, t)
    {
      assert BackedAt(tr, out, s, c, a, t);
      if At(c, t) > 0 {
        var p :| Route(tr, out, s, p) && p[|p| - 1] == a && p[0] == At(c, t) - 1 && tr[p[0]].tid == t;
        RouteGrows(tr, out, out', s, s', p);
      }
    }
  }

  lemma BackedOut(tr: ScTrace, out: seq<nat>, out': seq<nat>, s: Vectors)
    requires out <= out' && Backed(tr, out, s)
    ensures Backed(tr, out', s)
  {
    hide ClockBacked;
    GrewRefl(s);
    forall a: nat | a < |tr| && s.cvs[a].Some?
      ensures ClockBacked(tr, out', s, s.cvs[a].value, a)
    {
      ClockBackedGrows(tr, out, out', s, s, s.cvs[a].value, a);
    }
  }

  lemma RouteOn(tr: ScTrace, out: seq<nat>, s: Vectors, p: seq<nat>, a: nat)
    requires Route(tr, out, s, p) && a < |tr| && Edge(tr, out, s, p[|p| - 1], a)
    ensures Route(tr, out, s, p + [a])
  {
    hide Edge;
    var q := p + [a];
    forall i: nat | i < |q| - 1
      ensures Hop(tr, out, s, q, i)
    {
      if i < |p| - 1 {
        assert Hop(tr, out, s, p, i);
      }
    }
  }

  // ----- merging along an edge -----

  lemma ClockBackedOn(tr: ScTrace, out: seq<nat>, s: Vectors, c: Clock, b: nat, a: nat)
    requires ClockBacked(tr, out, s, c, b) && a < |tr| && Edge(tr, out, s, b, a)
    ensures ClockBacked(tr, out, s, c, a)
  {
    hide Edge, Hop;
    forall t: nat
      ensures BackedAt(tr, out, s, c, a, t)
    {
      assert BackedAt(tr, out, s, c, b, t);
      if At(c, t) > 0 {
        var p :| Route(tr, out, s, p) && p[|p| - 1] == b && p[0] == At(c, t) - 1 && tr[p[0]].tid == t;
        RouteOn(tr, out, s, p, a);
        var q := p + [a];
        assert q != [] && q[|q| - 1] == a && q[0] == p[0];
      }
    }
  }

  lemma JoinBacked(tr: ScTrace, out: seq<nat>, s: Vectors, c: Clock, d: Clock, a: nat)
    requires ClockBacked(tr, out, s, c, a) && ClockBacked(tr, out, s, d, a)
    ensures ClockBacked(tr, out, s, Join(c, d), a)
  {
    hide Route;
    forall t: nat
      ensures BackedAt(tr, out, s, Join(c, d), a, t)
    {
      assert BackedAt(tr, out, s, c, a, t) && BackedAt(tr, out, s, d, a, t);
    }
  }

  lemma MergeBacked(tr: ScTrace, out: seq<nat>, s: Vectors, a: nat, b: nat)
    requires a < |tr| && b < |tr| && Backed(tr, out, s) && s.cvs[a].Some? && Edge(tr, out, s, b, a)
    ensures Backed(tr, out, Merge(tr, s, a, b).0)
  {
    hide Edge, ClockBacked, Grew;
    var s' := Merge(tr, s, a, b).0;
    MergeStep(tr, s, a, b, 0);
    forall x: nat | x < |tr| && s'.cvs[x].Some?
      ensures ClockBacked(tr, out, s', s'.cvs[x].value, x)
    {
      ClockBackedGrows(tr, out, out, s, s', s.cvs[x].value, x);
      if x == a && s.cvs[b].Some? {
        ClockBackedOn(tr, out, s, s.cvs[b].value, b, a);
        JoinBacked(tr, out, s, s.cvs[a].value, s.cvs[b].value, a);
        ClockBackedGrows(tr, out, out, s, s', Join(s.cvs[a].value, s.cvs[b].value), a);
      }
    }
  }

  // ----- the passes -----

  lemma {:induction false} ReadBackBacked(tr: ScTrace, out: seq<nat>, s: Vectors, changed: bool, r: nat, l: seq<nat>,
                                          k: nat)
    requires |s.cvs| == |tr| && r < |tr| && s.cvs[r].Some? && tr[r].read && tr[r].rf < |tr| && k <= |l| && Listed(tr, l)
    requires OfOther(tr, r, l) && Backed(tr, out, s)
    ensures Backed(tr, out, ReadBack(tr, s, changed, r, l, k).0)
    decreases k
  {
    hide Merge, Backed;
    if k > 0 {
      var w2, w := l[k - 1], tr[r].rf;
      if !tr[w2].write || s.cvs[w2].None? {
        ReadBackBacked(tr, out, s, changed, r, l, k - 1);
      } else {
        assert Third(tr, r, w2);
        var p := if Since(s.cvs[w2].value, tr[w].tid, w) then Merge(tr, s, w2, r) else (s, false);
        MergeSets(tr, s, w2, r);
        if Since(s.cvs[w2].value, tr[w].tid, w) {
          assert Named(s, w2, tr[w].tid, w);
          MergeBacked(tr, out, s, w2, r);
        }
        if Since(p.0.cvs[r].value, tr[w2].tid, w2) {
          if p.0.cvs[w].Some? {
            assert Named(p.0, r, tr[w2].tid, w2);
            assert Edge(tr, out, p.0, w2, w);
            MergeBacked(tr, out, p.0, w, w2);
          }
        } else {
          ReadBackBacked(tr, out, p.0, changed || p.1, r, l, k - 1);
        }
      }
    }
  }

  lemma {:induction false} ReadThreadsBacked(tr: ScTrace, out: seq<nat>, s: Vectors, changed: bool, r: nat,
                                             threads: nat, t: nat)
    requires |s.cvs| == |tr| && r < |tr| && s.cvs[r].Some? && tr[r].read && tr[r].rf < |tr| && t <= threads
             && Backed(tr, out, s)
    ensures Backed(tr, out, ReadThreads(tr, s, changed, r, threads, t).0)
    decreases threads - t
  {
    hide ReadBack, Backed;
    if t < threads {
      if t == tr[r].tid || t == tr[tr[r].rf].tid {
        ReadThreadsBacked(tr, out, s, changed, r, threads, t + 1);
      } else {
        var l := OnObject(tr, tr[r].loc, t, |tr|);
        var p := ReadBack(tr, s, changed, r, l, |l|);
        ReadBackSets(tr, s, changed, r, l, |l|);
        ReadBackBacked(tr, out, s, changed, r, l, |l|);
        ReadThreadsBacked(tr, out, p.0, p.1, r, threads, t + 1);
      }
    }
  }

  lemma WithClockBacked(tr: ScTrace, out: seq<nat>, s: Vectors, a: nat, threads: nat)
    requires Complete(tr, threads) && a < |tr| && Backed(tr, out, s)
    ensures Backed(tr, out, WithClock(tr, s, a))
  {
    hide ClockBacked, Grew, Complete;
    var s' := WithClock(tr, s, a);
    WithClockStep(tr, s, a, threads);
    forall x: nat | x < |tr| && s'.cvs[x].Some?
      ensures ClockBacked(tr, out, s', s'.cvs[x].value, x)
    {
      if s.cvs[x].Some? {
        ClockBackedGrows(tr, out, out, s, s', s.cvs[x].value, x);
      } else {
        FirstBacked(tr, out, s', a);
      }
    }
  }

  lemma FirstBacked(tr: ScTrace, out: seq<nat>, s: Vectors, a: nat)
    requires a < |tr|
    ensures ClockBacked(tr, out, s, Create([], tr[a].tid, a + 1), a)
  {
    var c := Create([], tr[a].tid, a + 1);
    forall t: nat
      ensures BackedAt(tr, out, s, c, a, t)
    {
      assert At(c, t) == if t == tr[a].tid then a + 1 else At([], t);
      assert Route(tr, out, s, [a]);
    }
  }

  lemma VisitBacked(tr: ScTrace, out: seq<nat>, s: Vectors, changed: bool, a: nat, last: Option<nat>, threads: nat)
    requires Complete(tr, threads) && a < |s.cvs| == |tr|
             && (last.Some? ==> last.value < |tr| && Follows(tr, last.value, a))
    requires Backed(tr, out, s)
    ensures Backed(tr, out, Visit(tr, s, changed, a, last, threads).0)
  {
    hide Merge, Complete, Backed, ReadThreads;
    CompleteAt(tr, threads, a);
    var s0 := WithClock(tr, s, a);
    WithClockBacked(tr, out, s, a, threads);
    var s1 := if last.Some? then Merge(tr, s0, a, last.value).0 else s0;
    MergeKeeps(tr, s0, a, last);
    if last.Some? {
      MergeBacked(tr, out, s0, a, last.value);
    }
    var s2 := if tr[a].join.Some? then Merge(tr, s1, a, tr[a].join.value).0 else s1;
    MergeKeeps(tr, s1, a, tr[a].join);
    if tr[a].join.Some? {
      assert Follows(tr, tr[a].join.value, a);
      MergeBacked(tr, out, s1, a, tr[a].join.value);
    }
    if tr[a].read {
      var w := tr[a].rf;
      assert Follows(tr, w, a);
      MergeSets(tr, s2, a, w);
      MergeBacked(tr, out, s2, a, w);
      var p := Merge(tr, s2, a, w);
      ReadThreadsBacked(tr, out, p.0, p.1 && a < w, a, threads, 0);
    }
  }

  lemma {:induction false} PassBacked(tr: ScTrace, out: seq<nat>, s: Vectors, changed: bool, a: nat,
                                      last: map<nat, nat>, threads: nat)
    requires Complete(tr, threads) && a <= |s.cvs| == |tr| && LastOk(tr, last) && Latest(tr, last, a)
             && Backed(tr, out, s)
    ensures Backed(tr, out, Pass(tr, s, changed, a, last, threads).0)
    decreases |tr| - a
  {
    hide Visit, Complete, Backed, Latest, Follows;
    if a < |tr| {
      CompleteAt(tr, threads, a);
      var l := LastAct(tr, last, a);
      if l.Some? {
        LastFollows(tr, last, a);
      }
      VisitBacked(tr, out, s, changed, a, l, threads);
      var p := Visit(tr, s, changed, a, l, threads);
      LatestNext(tr, last, a);
      PassBacked(tr, out, p.0, p.1, a + 1, last[tr[a].tid := a], threads);
    }
  }

  /** The passes order nothing that does not follow from the trace, the rules and the choices. */
  lemma {:induction false} ComputedBacked(tr: ScTrace, out: seq<nat>, s: Vectors, first: bool, threads: nat)
    requires Complete(tr, threads) && |s.cvs| == |tr| && Bounded(s, threads) && (!first ==> AllSet(s))
             && Backed(tr, out, s)
    ensures Backed(tr, out, Computed(tr, s, first, threads))
    decreases first, Slack(s.cvs, |tr|, threads)
  {
    hide Pass, Moved, Slack, Complete, Backed, Bounded;
    var p := Pass(tr, s, first, 0, map[], threads);
    PassGrows(tr, s, first, threads);
    PassBacked(tr, out, s, first, 0, map[], threads);
    if p.1 {
      ComputedBacked(tr, out, p.0, false, threads);
    }
  }

  // ----- whole runs -----

  lemma {:induction false} AfterActBacked(tr: ScTrace, out: seq<nat>, s: Vectors, act: nat, l: seq<nat>, k: nat)
    requires act < |tr| == |s.cvs| && k <= |l| && Listed(tr, l) && AllSet(s) && Backed(tr, out, s)
    requires forall j {:trigger l[j]} ::
               0 <= j < |l| && tr[l[j]].write && tr[l[j]].loc == tr[act].loc ==> Chosen(tr, out, act, l[j])
    ensures Backed(tr, out, AfterAct(tr, s, act, l, k).0)
    decreases |l| - k
  {
    hide Backed, Chosen, Merge;
    if k < |l| {
      if tr[l[k]].write && tr[l[k]].loc == tr[act].loc {
        MergeBacked(tr, out, s, l[k], act);
      }
      AfterActBacked(tr, out, s, act, l, k + 1);
    }
  }

  /** What is left of a thread, if it writes what act accesses, is chosen to come after it. */
  ghost predicate AllChosen(tr: ScTrace, out: seq<nat>, act: nat, l: seq<nat>)
    requires act < |tr|
  {
    Listed(tr, l)
      && forall j {:trigger l[j]} ::
           0 <= j < |l| && tr[l[j]].write && tr[l[j]].loc == tr[act].loc ==> Chosen(tr, out, act, l[j])
  }

  lemma {:induction false} UpdateBacked(tr: ScTrace, out: seq<nat>, lists: Lists, s: Vectors, changed: bool,
                                        act: nat, i: nat)
    requires act < |tr| == |s.cvs| && ListsIn(tr, lists) && AllSet(s) && i <= |lists| && Backed(tr, out, s)
    requires forall t {:trigger lists[t]} :: 0 <= t < |lists| && t != tr[act].tid ==> AllChosen(tr, out, act, lists[t])
    ensures Backed(tr, out, UpdateConstraints(tr, lists, s, changed, act, i).0)
    decreases |lists| - i
  {
    hide Backed, AfterAct;
    if i < |lists| {
      if i == tr[act].tid {
        UpdateBacked(tr, out, lists, s, changed, act, i + 1);
      } else {
        var p := AfterAct(tr, s, act, lists[i], 0);
        assert AllChosen(tr, out, act, lists[i]);
        AfterActBacked(tr, out, s, act, lists[i], 0);
        UpdateBacked(tr, out, lists, p.0, changed || p.1, act, i + 1);
      }
    }
  }

  /** What is left has not been emitted. */
  lemma LeftChosen(tr: ScTrace, lists: Lists, out: seq<nat>, a: nat, t: nat)
    requires ListsOk(tr, lists) && Split(tr, lists, out) && t < |lists| && a < |tr| && t != tr[a].tid
    ensures AllChosen(tr, out + [a], a, lists[t])
  {
    hide Ordered;
    var l, out' := lists[t], out + [a];
    assert ListOk(tr, l, t) && After(tr, l, out, t);
    forall j | 0 <= j < |l| && tr[l[j]].write && tr[l[j]].loc == tr[a].loc
      ensures Chosen(tr, out', a, l[j])
    {
      assert l[j] !in out;
      assert out'[|out|] == a && out'[..|out|] == out;
    }
  }

  lemma TakenBacked(tr: ScTrace, threads: nat, g: Gen, a: nat)
    requires Complete(tr, threads) && GenOk(tr, threads, g) && IsFront(tr, g.lists, a) && Backed(tr, g.out, g.s)
    ensures Backed(tr, g.out + [a], Taken(tr, threads, g, a).s)
  {
    hide Computed, UpdateConstraints, Split, Complete, Bounded, Backed, AllChosen;
    var lists := Pop(g.lists, tr[a].tid);
    PopOk(tr, g.lists, a);
    var out := g.out + [a];
    BackedOut(tr, g.out, out, g.s);
    forall t | 0 <= t < |lists| && t != tr[a].tid
      ensures AllChosen(tr, out, a, lists[t])
    {
      LeftChosen(tr, g.lists, g.out, a, t);
    }
    var p := UpdateConstraints(tr, lists, g.s, false, a, 0);
    UpdateBacked(tr, out, lists, g.s, false, a, 0);
    UpdateStep(tr, lists, g.s, false, a, 0, threads);
    if p.1 {
      ComputedBacked(tr, out, p.0, true, threads);
    }
  }

  /** In every state of every run, whatever a clock names leads to its action. */
  lemma {:induction false} RunBacked(tr: ScTrace, threads: nat, plan: seq<nat>, n: nat)
    requires Complete(tr, threads)
    ensures var g := RunTo(tr, threads, plan, n); Backed(tr, g.out, g.s)
    decreases n
  {
    hide Backed, Complete, GenOk, Taken, Candidates, Picked;
    if n == 0 {
      StartBacked(tr, threads);
    } else {
      RunBacked(tr, threads, plan, n - 1);
      var g := RunTo(tr, threads, plan, n - 1);
      if Candidates(tr, threads, g) != [] {
        TakenBacked(tr, threads, g, Picked(tr, threads, g, if g.used < |plan| then plan[g.used] else 0));
      }
    }
  }

  lemma StartBacked(tr: ScTrace, threads: nat)
    requires Complete(tr, threads)
    ensures Backed(tr, [], Start(tr, threads).s)
  {
    hide Computed, Complete;
    var s := Unset(|tr|);
    assert Backed(tr, [], s);
    ComputedBacked(tr, [], s, true, threads);
  }
}
