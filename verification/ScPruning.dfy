/** Taking a candidate without a choice loses nothing: if any continuation avoids a cycle, one through it does. */
module ScPruning {
  import opened Relations
  import opened GraphTheory
  import opened ScTheory
  import opened ScChoices
  import opened ScGeneration
  import opened ScSearch
  import opened ScFixpoint
  import opened ScSolutions
  import opened ScSettled
  import opened ScRoutes
  import opened ScRespected
  import opened ScLinear

  // ----- an action moved forward -----

  /** The order with the action at place i moved forward to place n. */
  function Advanced(order: seq<nat>, n: nat, i: nat): (r: seq<nat>)
    requires n <= i < |order|
    ensures |r| == |order| && forall k {:trigger r[k]} :: 0 <= k < |r| ==> r[k] == order[Source(n, i, k)]
  {
    order[..n] + [order[i]] + order[n..i] + order[i + 1..]
  }

  function Source(n: nat, i: nat, k: nat): nat
    requires n <= i
  {
    if k == n then i else if n < k <= i then k - 1 else k
  }

  /** Where the action at place j goes. */
  function Target(n: nat, i: nat, j: nat): (k: nat)
    requires n <= i
    ensures Source(n, i, k) == j
  {
    if j == i then n else if n <= j < i then j + 1 else j
  }

  lemma AdvancedHas(order: seq<nat>, n: nat, i: nat, x: nat)
    requires n <= i < |order|
    ensures x in Advanced(order, n, i) <==> x in order
  {
    var r := Advanced(order, n, i);
    if x in order {
      var j :| 0 <= j < |order| && order[j] == x;
      assert r[Target(n, i, j)] == x;
    }
    if x in r {
      var k :| 0 <= k < |r| && r[k] == x;
      assert order[Source(n, i, k)] == x;
    }
  }

  /** Between two others the order stays. */
  lemma AdvancedOthers(order: seq<nat>, n: nat, i: nat, x: nat, y: nat)
    requires n <= i < |order| && Distinct(order) && x != order[i] && y != order[i]
    ensures Precedes(Advanced(order, n, i), x, y) <==> Precedes(order, x, y)
  {
    var r := Advanced(order, n, i);
    if Precedes(order, x, y) {
      var j, k :| 0 <= j < k < |order| && order[j] == x && order[k] == y;
      assert r[Target(n, i, j)] == x && r[Target(n, i, k)] == y;
    }
    if Precedes(r, x, y) {
      var j, k :| 0 <= j < k < |r| && r[j] == x && r[k] == y;
      assert order[Source(n, i, j)] == x && order[Source(n, i, k)] == y;
    }
  }

  /** It comes after what is before its new place, and before the rest. */
  lemma AdvancedOne(order: seq<nat>, n: nat, i: nat, x: nat)
    requires n <= i < |order| && Distinct(order) && x in order && x != order[i]
    ensures Precedes(Advanced(order, n, i), x, order[i]) <==> x in order[..n]
    ensures Precedes(Advanced(order, n, i), order[i], x) <==> x !in order[..n]
  {
    var r, a := Advanced(order, n, i), order[i];
    var j :| 0 <= j < |order| && order[j] == x;
    AdvancedDistinct(order, n, i);
    assert x in order[..n] <==> j < n;
    assert r[n] == a && r[Target(n, i, j)] == x;
    if Precedes(r, x, a) {
      PrecedesIrreflexive(r, x, a);
    }
    if Precedes(r, a, x) {
      PrecedesIrreflexive(r, a, x);
    }
  }

  lemma AdvancedDistinct(order: seq<nat>, n: nat, i: nat)
    requires n <= i < |order| && Distinct(order)
    ensures Distinct(Advanced(order, n, i))
  {
    var r := Advanced(order, n, i);
    forall j, k | 0 <= j < k < |r|
      ensures r[j] != r[k]
    {
      assert Source(n, i, j) != Source(n, i, k);
    }
  }

  /** What allows a to come next: whatever it follows is out, and no rule puts anything else before it. */
  ghost predicate Movable(tr: ScTrace, out: seq<nat>, order: seq<nat>, a: nat) {
    && (forall b: nat {:trigger tr[b]} :: b < a && a < |tr| && tr[b].tid == tr[a].tid ==> b in out)
    && (forall b: nat {:trigger Follows(tr, b, a)} :: Follows(tr, b, a) ==> b in out)
    && (forall r: nat {:trigger Third(tr, r, a)} :: Third(tr, r, a) && tr[r].rf in out ==> r in out)
    && (forall r: nat, w2: nat {:trigger Third(tr, r, w2)} ::
          Third(tr, r, w2) && tr[r].rf == a && w2 !in out ==> Precedes(order, a, w2))
  }

  lemma AdvancedOrdered(tr: ScTrace, out: seq<nat>, order: seq<nat>, a: nat, i: nat)
    requires Interleaving(tr, order) && out <= order && |out| <= i < |order| && order[i] == a
             && Movable(tr, out, order, a)
    ensures Interleaving(tr, Advanced(order, |out|, i))
  {
    var n := |out|;
    var r := Advanced(order, n, i);
    forall j, k | 0 <= j < k < |r| && tr[r[j]].tid == tr[r[k]].tid
      ensures r[j] < r[k]
    {
      if j == n && k <= i {
        assert order[k - 1] < a;
        assert order[k - 1] in out;
        PlacedIn(tr, out, order, order[k - 1]);
        OrderedDistinct(tr, order);
      } else {
        assert Source(n, i, j) < Source(n, i, k);
      }
    }
    forall x: nat | x < |tr|
      ensures x in r
    {
      AdvancedHas(order, n, i, x);
    }
  }

  /** A lawful order stays lawful if such an action is taken next. */
  lemma AdvancedLawful(tr: ScTrace, out: seq<nat>, order: seq<nat>, a: nat, i: nat)
    requires Lawful(tr, order) && out <= order && |out| <= i < |order| && order[i] == a && Movable(tr, out, order, a)
    ensures Lawful(tr, Advanced(order, |out|, i)) && out + [a] <= Advanced(order, |out|, i)
  {
    hide Follows, Interleaving, Precedes, Movable;
    var r := Advanced(order, |out|, i);
    AdvancedOrdered(tr, out, order, a, i);
    assert FollowsFirst(tr, r) by {
      forall b: nat, z: nat | Follows(tr, b, z) && z in r
        ensures Precedes(r, b, z)
      {
        AdvancedFollows(tr, out, order, a, i, b, z);
      }
    }
    assert ThirdFirst(tr, r) by {
      forall x: nat, w2: nat | Third(tr, x, w2) && Precedes(r, tr[x].rf, w2)
        ensures Precedes(r, x, w2)
      {
        AdvancedThird(tr, out, order, a, i, x, w2);
      }
    }
  }

  lemma AdvancedFollows(tr: ScTrace, out: seq<nat>, order: seq<nat>, a: nat, i: nat, b: nat, z: nat)
    requires Lawful(tr, order) && out <= order && |out| <= i < |order| && order[i] == a && Movable(tr, out, order, a)
    requires Follows(tr, b, z)
    ensures Precedes(Advanced(order, |out|, i), b, z)
  {
    hide Follows, Precedes;
    FollowsIn(tr, b, z);
    OrderedDistinct(tr, order);
    assert Precedes(order, b, z);
    PrecedesIrreflexive(order, b, z);
    assert order[..|out|] == out;
    if z == a {
      AdvancedOne(order, |out|, i, b);
    } else if b == a {
      AdvancedOne(order, |out|, i, z);
      LaterOut(tr, out, order, a, i, z);
    } else {
      AdvancedOthers(order, |out|, i, b, z);
    }
  }

  lemma LaterOut(tr: ScTrace, out: seq<nat>, order: seq<nat>, a: nat, i: nat, z: nat)
    requires Interleaving(tr, order) && out <= order && |out| <= i < |order| && order[i] == a && z < |tr|
    requires Precedes(order, a, z)
    ensures z !in out
  {
    OrderedDistinct(tr, order);
    PlacePrecedes(tr, order, a, z);
    PlacedIn(tr, out, order, z);
  }

  lemma AdvancedThird(tr: ScTrace, out: seq<nat>, order: seq<nat>, a: nat, i: nat, x: nat, w2: nat)
    requires Lawful(tr, order) && out <= order && |out| <= i < |order| && order[i] == a && Movable(tr, out, order, a)
    requires Third(tr, x, w2) && Precedes(Advanced(order, |out|, i), tr[x].rf, w2)
    ensures Precedes(Advanced(order, |out|, i), x, w2)
  {
    hide Precedes;
    var n, w := |out|, tr[x].rf;
    OrderedDistinct(tr, order);
    assert order[..n] == out;
    assert Follows(tr, w, x) && Precedes(order, w, x);
    PrecedesIrreflexive(order, w, x);
    if w2 == a {
      AdvancedOne(order, n, i, w);
      AdvancedOne(order, n, i, x);
    } else if w == a {
      AdvancedOne(order, n, i, w2);
      AdvancedOthers(order, n, i, x, w2);
    } else {
      AdvancedOthers(order, n, i, w, w2);
      if x == a {
        LaterOut(tr, out, order, a, i, w2);
        AdvancedOne(order, n, i, w2);
      } else {
        AdvancedOthers(order, n, i, x, w2);
      }
    }
  }

  // ----- what is taken without a choice can be moved forward -----

  lemma OnlyWritesRead(tr: ScTrace, threads: nat, a: nat, r: nat)
    requires Complete(tr, threads) && r < |tr| && tr[r].read && tr[r].rf == a
    ensures a < |tr| && tr[a].write && tr[a].loc == tr[r].loc
  {
  }

  /** If no write to come is open, every one of them comes after a in the order. */
  lemma ClosedAfter(tr: ScTrace, threads: nat, g: Gen, a: nat, w2: nat, order: seq<nat>)
    requires GenOk(tr, threads, g) && ListsIn(tr, g.lists) && a < |tr| && w2 < |tr| && w2 !in g.out
             && tr[w2].write && tr[w2].loc == tr[a].loc && tr[w2].tid != tr[a].tid
    requires Interleaving(tr, order) && Within(g.s, ClocksIn(tr, order))
    requires forall i: nat, m: nat {:trigger OpenWrite(tr, g.s, a, g.lists[i], 0, m)} ::
               i < |g.lists| && i != tr[a].tid ==> !OpenWrite(tr, g.s, a, g.lists[i], 0, m)
    ensures Precedes(order, a, w2)
  {
    hide Within, ClocksIn, Bounded, ListsIn;
    var t := tr[w2].tid;
    assert Somewhere(tr, g.lists, g.out, w2);
    var l := g.lists[t];
    var m: nat :| m < |l| && l[m] == w2;
    assert ListOk(tr, l, t) && Increasing(l);
    assert !OpenWrite(tr, g.s, a, l, 0, m);
    var j: nat :| j <= m && tr[l[j]].write && Named(g.s, l[j], tr[a].tid, a);
    assert g.s.cvs[l[j]].Some? && Since(g.s.cvs[l[j]].value, tr[a].tid, a);
    SinceWithin(g.s, ClocksIn(tr, order), l[j], tr[a].tid, a);
    NamedIn(tr, order, a, l[j]);
    ThreadLater(tr, order, a, l[j], w2);
  }

  lemma ThreadLater(tr: ScTrace, order: seq<nat>, a: nat, y: nat, x: nat)
    requires Interleaving(tr, order) && a < |tr| && y <= x < |tr| && tr[y].tid == tr[x].tid && Precedes(order, a, y)
    ensures Precedes(order, a, x)
  {
    OrderedDistinct(tr, order);
    if y < x {
      assert Precedes(order, y, x) by {
        OneFirst(tr, order, y, x);
      }
      PrecedesTrans(order, a, y, x);
    }
  }

  lemma PrunedMovable(tr: ScTrace, threads: nat, g: Gen, a: nat, order: seq<nat>)
    requires Steady(tr, threads, g, a) && Regular(tr) && Interleaving(tr, order) && Within(g.s, ClocksIn(tr, order))
    requires ListsIn(tr, g.lists) && Choiceless(tr, g.lists, g.s, Candidates(tr, threads, g), a)
    ensures Movable(tr, g.out, order, a)
  {
    hide Within, ClocksIn, Bounded, ListsIn, Complete, IsOrder, Respects, Backed, Own, Started, ClocksDecide,
         Candidates, Interleaving, Precedes, Follows, OpenWrite, Split, ListsOk;
    CandidateNew(tr, threads, g, a);
    forall b: nat | b < a && a < |tr| && tr[b].tid == tr[a].tid
      ensures b in g.out
    {
      FrontBefore(tr, threads, g, a, b);
    }
    RegularFollows(tr, a);
    TakenFollows(tr, threads, g, a);
    forall b: nat | Follows(tr, b, a)
      ensures b in g.out
    {
      assert Precedes(g.out + [a], b, a);
      PrecedesEnd(g.out, a, b, a);
      PrecedesOnly(g.out, a, a);
      EndsIn(g.out, b, a);
    }
    forall r: nat | Third(tr, r, a) && tr[r].rf in g.out
      ensures r in g.out
    {
      ThirdEmitted(tr, threads, g, a, r);
    }
    forall r: nat, w2: nat | Third(tr, r, w2) && tr[r].rf == a && w2 !in g.out
      ensures Precedes(order, a, w2)
    {
      OnlyWritesRead(tr, threads, a, r);
      ClosedAfter(tr, threads, g, a, w2, order);
    }
  }

  lemma EndsIn(out: seq<nat>, x: nat, y: nat)
    ensures Precedes(out, x, y) ==> x in out
  {
  }

  /**
   * In a settled state of any run, on any regular trace, the candidate that is taken without a choice goes on to a
   * lawful order if any candidate does.
   */
  lemma PrunedGoesOn(tr: ScTrace, threads: nat, g: Gen, a: nat, order: seq<nat>) returns (order': seq<nat>)
    requires Regular(tr) && Steady(tr, threads, g, a) && ListsIn(tr, g.lists)
    requires Lawful(tr, order) && g.out < order && Within(g.s, ClocksIn(tr, order))
    requires Candidates(tr, threads, g) != []
             && Prune(tr, g.lists, g.s, Candidates(tr, threads, g)) == Some(a)
    ensures Lawful(tr, order') && g.out + [a] <= order'
  {
    hide Complete, Backed, IsOrder, Respects, Own, Started, ClocksDecide, Regular, Lawful, Within, ClocksIn, Candidates,
         Prune, Choiceless, GenOk;
    LawfulIs(tr, order);
    var arr := Candidates(tr, threads, g);
    GenLists(tr, threads, g);
    NextOffered(tr, threads, g, order);
    PrunedExactly(tr, g.lists, g.s, arr);
    if |arr| == 1 {
      assert order[|g.out|] == a;
      order' := order;
    } else {
      PrunedMovable(tr, threads, g, a, order);
      InterleavingHas(tr, order, a);
      var i := Place(order, a);
      CandidateNew(tr, threads, g, a);
      PlacedIn(tr, g.out, order, a);
      AdvancedLawful(tr, g.out, order, a, i);
      order' := Advanced(order, |g.out|, i);
    }
  }
}
