/** When merging a promise node into a write node succeeds: exactly if making the two one closes no cycle. */
module MergeExactness {
  import opened Relations
  import opened GraphTheory
  import opened GraphRollback
  import opened GraphRuns
  import opened GraphMerge
  import opened GraphCircles
  import opened MergeOutcomes

  // ----- the relation after the merge -----

  /** Moving p's edges adds an edge from a to y. */
  ghost predicate IsTarget(g: Graph, p: nat, w: nat, a: nat, y: nat)
    requires p < |g| && w < |g|
  {
    y in g[p].edges && y != w && Moves(g, y, w, a)
  }

  ghost function Targets(g: Graph, p: nat, w: nat): Rel
    requires p < |g| && w < |g|
  {
    set a: nat, y: nat | a < |g| && y < |g| && IsTarget(g, p, w, a, y) :: (a, y)
  }

  /** The pairs away from p, and those that w gets in its place, with what follows from readers behind them. */
  ghost function MergedRel(g: Graph, p: nat, w: nat): Rel
    requires p < |g| && w < |g|
  {
    OffNode(Pairs(g), p) + Into(Sources(g, p, w), w) + Targets(g, p, w)
  }

  // ----- moving the edges -----

  /** What one turn over the edges leaves and adds. */
  lemma EdgeTurnAdds(s: State, p: nat, w: nat)
    requires WellFormed(s.g) && p < |s.g| && w < |s.g| && p != w && s.g[p].edges != []
    ensures var y, t := s.g[p].edges[|s.g[p].edges| - 1], MovedEdge(s, p, w);
            && y < |s.g| && |t.g| == |s.g|
            && forall a: nat, b: nat ::
                 (a, b) in Pairs(t.g) <==>
                   ((a, b) in Pairs(s.g) && (a, b) != (p, y)) || (y != w && b == y && Moves(s.g, y, w, a))
  {
    hide AddNodeEdge, Moves, Dropped;
    PopEdgeDrops(s.g, p);
    var y := s.g[p].edges[|s.g[p].edges| - 1];
    var h := PopEdge(s.g, p);
    DroppedPairs(s.g, h, p, y);
    if y != w {
      AddNodeEdgeShape(State(h, s.cyclic), w, y);
      AddMoves(State(h, s.cyclic), w, y);
      forall a: nat | true
        ensures Moves(h, y, w, a) <==> Moves(s.g, y, w, a)
      {
        DroppedSame(s.g, h, p, y);
        SameMoves(s.g, h, y, w, a);
      }
    }
  }

  lemma DroppedSame(g: Graph, h: Graph, p: nat, y: nat)
    requires Dropped(g, h, p, y)
    ensures SameReaders(g, h) && forall x :: 0 <= x < |g| && x != p ==> h[x].edges == g[x].edges
  {
  }

  lemma SameMoves(g: Graph, h: Graph, to: nat, from: nat, a: nat)
    requires SameReaders(g, h) && from < |g| && (to in h[from].edges <==> to in g[from].edges)
    ensures Moves(h, to, from, a) <==> Moves(g, to, from, a)
  {
    if g[from].rmw.Some? {
      SameStops(g, h, g[from].rmw.value, to);
    }
  }

  /** A turn leaves the other edges of p as they were: they move as before. */
  lemma OthersTarget(s: State, p: nat, w: nat, a: nat, y: nat)
    requires WellFormed(s.g) && p < |s.g| && w < |s.g| && p != w && NoReader(s.g, p) && s.g[p].edges != []
    requires y != s.g[p].edges[|s.g[p].edges| - 1]
    ensures var t := MovedEdge(s, p, w); |t.g| == |s.g| && (Moves(t.g, y, w, a) <==> Moves(s.g, y, w, a))
  {
    hide WellFormed, MovedEdge, Moves;
    MovedEdgeShape(s, p, w);
    EdgeTurnAdds(s, p, w);
    var t := MovedEdge(s, p, w);
    assert y in s.g[w].edges <==> (w, y) in Pairs(s.g);
    assert y in t.g[w].edges <==> (w, y) in Pairs(t.g);
    SameMoves(s.g, t.g, y, w, a);
  }

  lemma LastEdge(g: Graph, p: nat)
    requires WellFormed(g) && p < |g| && g[p].edges != []
    ensures var e := g[p].edges;
            && e[|e| - 1] in e && e[|e| - 1] < |g| && e[|e| - 1] !in e[..|e| - 1]
            && forall x :: x in e <==> x == e[|e| - 1] || x in e[..|e| - 1]
  {
    assert NodeList(|g|, g[p].edges);
    SplitLast(g[p].edges);
  }

  lemma EdgeFlag(s: State, p: nat, w: nat, rel: Rel)
    requires WellFormed(s.g) && p < |s.g| && w < |s.g| && p != w && s.g[p].edges != [] && !s.cyclic
    requires Acyclic(rel) && Pairs(s.g) <= rel && Pairs(MovedEdge(s, p, w).g) <= rel
    ensures !MovedEdge(s, p, w).cyclic
  {
    hide Acyclic, AddNodeEdge;
    PopEdgeDrops(s.g, p);
    var y := s.g[p].edges[|s.g[p].edges| - 1];
    if y != w {
      var h := PopEdge(s.g, p);
      AcyclicMono(Pairs(h), rel);
      AcyclicMono(Pairs(MovedEdge(s, p, w).g), rel);
      AddNodeEdgeExact(State(h, false), w, y);
    }
  }

  /** Within an acyclic relation that holds all that is added, the loop does not fail. */
  lemma {:induction false} EdgeMovesWithin(s: State, p: nat, w: nat, rel: Rel)
    requires WellFormed(s.g) && p < |s.g| && w < |s.g| && p != w && NoReader(s.g, p) && !s.cyclic
    requires Acyclic(rel) && Pairs(s.g) <= rel
             && forall a: nat, y: nat :: IsTarget(s.g, p, w, a, y) ==> (a, y) in rel
    ensures var m := EdgeMoves(s, p, w); m.Done? ==> m.ok && !m.s.cyclic
    decreases |s.g[p].edges|
  {
    hide WellFormed, MovedEdge, EdgeEnds, Acyclic, Moves;
    if s.g[p].edges != [] {
      var t := MovedEdge(s, p, w);
      MovedEdgeShape(s, p, w);
      EdgeTurnAdds(s, p, w);
      LastEdge(s.g, p);
      forall a: nat, b: nat | (a, b) in Pairs(t.g)
        ensures (a, b) in rel
      {
        if (a, b) !in Pairs(s.g) {
          assert IsTarget(s.g, p, w, a, b);
        }
      }
      EdgeFlag(s, p, w, rel);
      forall a: nat, y: nat | IsTarget(t.g, p, w, a, y)
        ensures (a, y) in rel
      {
        OthersTarget(s, p, w, a, y);
        assert IsTarget(s.g, p, w, a, y);
      }
      EdgeMovesWithin(t, p, w, rel);
    }
  }

  /** A loop that gets through keeps the pairs away from p. */
  lemma {:induction false} EdgeMovesKeepPairs(s: State, p: nat, w: nat, a: nat, b: nat)
    requires WellFormed(s.g) && p < |s.g| && w < |s.g| && p != w && NoReader(s.g, p) && (a, b) in Pairs(s.g) && a != p
    ensures EdgeMoves(s, p, w).Done? ==> (a, b) in Pairs(EdgeMoves(s, p, w).s.g)
    decreases |s.g[p].edges|
  {
    hide WellFormed, MovedEdge, EdgeEnds, Pairs;
    if s.g[p].edges != [] {
      MovedEdgeShape(s, p, w);
      EdgeTurn(s, p, w);
      EdgeMovesKeepPairs(MovedEdge(s, p, w), p, w, a, b);
    }
  }

  /** And it has added all targets. */
  lemma {:induction false} EdgeMovesAdds(s: State, p: nat, w: nat, a: nat, y: nat)
    requires WellFormed(s.g) && p < |s.g| && w < |s.g| && p != w && NoReader(s.g, p) && IsTarget(s.g, p, w, a, y)
             && a != p
    ensures EdgeMoves(s, p, w).Done? && EdgeMoves(s, p, w).ok ==> (a, y) in Pairs(EdgeMoves(s, p, w).s.g)
    decreases |s.g[p].edges|
  {
    hide WellFormed, MovedEdge, EdgeEnds, Moves;
    var t := MovedEdge(s, p, w);
    MovedEdgeShape(s, p, w);
    EdgeTurnAdds(s, p, w);
    LastEdge(s.g, p);
    if y == s.g[p].edges[|s.g[p].edges| - 1] {
      EdgeMovesKeepPairs(t, p, w, a, y);
    } else {
      OthersTarget(s, p, w, a, y);
      EdgeMovesAdds(t, p, w, a, y);
    }
  }

  // ----- p and w as one node -----

  ghost function AsOne(p: nat, w: nat, x: nat): nat {
    if x == p then w else x
  }

  /** Where p and w are one, every pair is one of the merged relation, or joins the two. */
  ghost predicate Folds(rel: Rel, merged: Rel, p: nat, w: nat) {
    forall a, b {:trigger (a, b) in rel} :: (a, b) in rel ==>
      AsOne(p, w, a) == AsOne(p, w, b) || (AsOne(p, w, a), AsOne(p, w, b)) in merged
  }

  lemma {:induction false} FoldPath(rel: Rel, merged: Rel, p: nat, w: nat, q: seq<nat>, a: nat, b: nat)
    requires Folds(rel, merged, p, w) && IsPath(rel, q, a, b)
    ensures Reach(merged, AsOne(p, w, a), AsOne(p, w, b))
    decreases |q|
  {
    hide Reach, AsOne;
    ReachRefl(merged, AsOne(p, w, a));
    if |q| > 1 {
      assert (q[0], q[1]) in rel;
      assert IsPath(rel, q[1..], q[1], b);
      FoldPath(rel, merged, p, w, q[1..], q[1], b);
      if AsOne(p, w, a) != AsOne(p, w, q[1]) {
        ReachPair(merged, AsOne(p, w, a), AsOne(p, w, q[1]));
        ReachTrans(merged, AsOne(p, w, a), AsOne(p, w, q[1]), AsOne(p, w, b));
      }
    }
  }

  lemma FoldReach(rel: Rel, merged: Rel, p: nat, w: nat, a: nat, b: nat)
    requires Folds(rel, merged, p, w) && Reach(rel, a, b)
    ensures Reach(merged, AsOne(p, w, a), AsOne(p, w, b))
  {
    var q :| IsPath(rel, q, a, b);
    FoldPath(rel, merged, p, w, q, a, b);
  }

  /** A cycle would still be one where p and w are one, unless it only joins the two. */
  lemma FoldAcyclic(rel: Rel, merged: Rel, p: nat, w: nat)
    requires Folds(rel, merged, p, w) && Acyclic(merged) && p != w && (forall a: nat :: (a, a) !in rel)
             && !((p, w) in rel && (w, p) in rel)
    ensures Acyclic(rel)
  {
    hide Reach;
    forall a: nat, b: nat | (a, b) in rel
      ensures !Reach(rel, b, a)
    {
      if Reach(rel, b, a) {
        FoldReach(rel, merged, p, w, b, a);
        CycleIn(merged, AsOne(p, w, a), AsOne(p, w, b));
        assert AsOne(p, w, a) == AsOne(p, w, b);
        var c := FirstStep(rel, b, a);
        FoldReach(rel, merged, p, w, c, a);
        CycleIn(merged, AsOne(p, w, b), AsOne(p, w, c));
      }
    }
  }

  lemma FirstStep(rel: Rel, a: nat, b: nat) returns (c: nat)
    requires Reach(rel, a, b) && a != b
    ensures (a, c) in rel && Reach(rel, c, b)
  {
    var q :| IsPath(rel, q, a, b);
    c := q[1];
    assert IsPath(rel, q[1..], c, b);
  }

  lemma CycleIn(rel: Rel, a: nat, b: nat)
    requires Acyclic(rel)
    ensures (a, b) in rel ==> !Reach(rel, b, a)
  {
  }

  /** The pairs before the merge and those after it, with p and w as one. */
  lemma GraphFolds(g: Graph, p: nat, w: nat)
    requires WellFormed(g) && p < |g| && w < |g| && p != w && NoReader(g, p) && Acyclic(Pairs(g))
    ensures Folds(Pairs(g) + MergedRel(g, p, w), MergedRel(g, p, w), p, w)
  {
    hide WellFormed, Acyclic;
    var rel, merged := Pairs(g) + MergedRel(g, p, w), MergedRel(g, p, w);
    forall a, b | (a, b) in rel
      ensures AsOne(p, w, a) == AsOne(p, w, b) || (AsOne(p, w, a), AsOne(p, w, b)) in merged
    {
      Irreflexive(g, p);
      if (a, b) in merged {
        MergedAway(g, p, w, a, b);
      } else if b == p && a != w {
        PairBack(g, a, p);
        assert IsSource(g, p, w, a);
      } else if a == p && b != w {
        PairOut(g, p, b);
        assert IsTarget(g, p, w, w, b);
      }
    }
  }

  lemma PairBack(g: Graph, a: nat, p: nat)
    requires WellFormed(g) && (a, p) in Pairs(g) && p < |g|
    ensures a < |g| && a in g[p].back
  {
  }

  lemma PairOut(g: Graph, p: nat, b: nat)
    requires WellFormed(g) && (p, b) in Pairs(g)
    ensures p < |g| && b < |g| && b in g[p].edges
  {
    assert NodeList(|g|, g[p].edges);
  }

  /** The merged relation does not touch p. */
  lemma MergedAway(g: Graph, p: nat, w: nat, a: nat, b: nat)
    requires WellFormed(g) && p < |g| && w < |g| && p != w && NoReader(g, p) && Acyclic(Pairs(g))
             && (a, b) in MergedRel(g, p, w)
    ensures a != p && b != p
  {
    hide WellFormed, Acyclic;
    Irreflexive(g, p);
    if (a, b) in Into(Sources(g, p, w), w) {
      var x :| x in g[p].back && x != w && x < |g| && Moves(g, w, x, a);
      BackPair(g, p, x);
      if a != x {
        ChainStopElsewhere(g, g[x].rmw.value, w, p);
      }
    } else if (a, b) in Targets(g, p, w) {
      assert (p, b) in Pairs(g);
      if a != w {
        ChainStopElsewhere(g, g[w].rmw.value, b, p);
      }
    }
  }

  lemma WholeAcyclic(g: Graph, p: nat, w: nat)
    requires WellFormed(g) && p < |g| && w < |g| && p != w && NoReader(g, p) && Acyclic(Pairs(g))
             && Acyclic(MergedRel(g, p, w))
    ensures Acyclic(Pairs(g) + MergedRel(g, p, w))
  {
    hide WellFormed, Acyclic, MergedRel, Pairs, Reach;
    GraphFolds(g, p, w);
    forall a: nat | true
      ensures (a, a) !in Pairs(g) + MergedRel(g, p, w)
    {
      NoSelf(Pairs(g), a);
      NoSelf(MergedRel(g, p, w), a);
    }
    NotBoth(Pairs(g), p, w);
    if (p, w) in MergedRel(g, p, w) {
      MergedAway(g, p, w, p, w);
    }
    if (w, p) in MergedRel(g, p, w) {
      MergedAway(g, p, w, w, p);
    }
    FoldAcyclic(Pairs(g) + MergedRel(g, p, w), MergedRel(g, p, w), p, w);
  }

  lemma NoSelf(rel: Rel, a: nat)
    requires Acyclic(rel)
    ensures (a, a) !in rel
  {
    ReachRefl(rel, a);
  }

  lemma NotBoth(rel: Rel, a: nat, b: nat)
    requires Acyclic(rel)
    ensures !((a, b) in rel && (b, a) in rel)
  {
    if (b, a) in rel {
      ReachPair(rel, b, a);
    }
  }

  /** The back edges do not change how p's edges move. */
  lemma TargetsStay(s: State, p: nat, w: nat, a: nat, y: nat)
    requires WellFormed(s.g) && p < |s.g| && w < |s.g| && p != w && NoReader(s.g, p) && AllStop(s.g, w)
    requires !s.cyclic && Acyclic(Pairs(s.g)) && BackMoves(s, p, w).Done? && BackMoves(s, p, w).ok
    ensures var h := BackMoves(s, p, w).s.g;
            |h| == |s.g| && (IsTarget(h, p, w, a, y) <==> IsTarget(s.g, p, w, a, y))
  {
    hide WellFormed, Acyclic, BackMoves, Stops, Moves, Pairs;
    var m := BackMoves(s, p, w);
    BackMovesShape(s, p, w);
    BackMovesEnd(s, p, w);
    BackMovesAcyclic(s, p, w);
    SameEdges(s.g, m.s.g, p, w);
    if y in s.g[p].edges && y != w {
      SameMoves(s.g, m.s.g, y, w, a);
    }
  }

  lemma StartKeeps(g: Graph, p: nat, w: nat)
    requires p < |g| && Acyclic(Pairs(g))
    ensures Merging(g, p, OffNode(Pairs(g), p)) && Bound(g, g, p, w)
  {
  }

  lemma SourceIn(g: Graph, p: nat, w: nat, a: nat)
    requires p < |g| && w < |g| && IsSource(g, p, w, a)
    ensures (a, w) in MergedRel(g, p, w)
  {
    var x :| x in g[p].back && x != w && x < |g| && Moves(g, w, x, a);
    MovesInRange(g, w, x, a);
  }

  lemma TargetIn(g: Graph, p: nat, w: nat, a: nat, y: nat)
    requires WellFormed(g) && p < |g| && w < |g| && IsTarget(g, p, w, a, y)
    ensures (a, y) in MergedRel(g, p, w)
  {
    assert (p, y) in Pairs(g);
    PairOut(g, p, y);
    MovesInRange(g, y, w, a);
  }

  /** All that is added lies within the relation, so no turn fails. */
  lemma AllWithin(s: State, p: nat, w: nat, rel: Rel)
    requires WellFormed(s.g) && p < |s.g| && w < |s.g| && p != w && NoReader(s.g, p) && AllStop(s.g, w)
    requires !s.cyclic && Acyclic(Pairs(s.g)) && Acyclic(rel) && Pairs(s.g) <= rel && MergedRel(s.g, p, w) <= rel
    ensures AllMoves(s, p, w).Done? ==> AllMoves(s, p, w).ok
  {
    hide WellFormed, Acyclic, BackMoves, EdgeMoves, Stops, Pairs, MergedRel, IsSource, IsTarget;
    forall a: nat | IsSource(s.g, p, w, a)
      ensures (a, w) in rel
    {
      SourceIn(s.g, p, w, a);
    }
    BackMovesWithin(s, p, w, rel);
    BackMovesShape(s, p, w);
    var m := BackMoves(s, p, w);
    forall a: nat, y: nat | IsTarget(m.s.g, p, w, a, y)
      ensures (a, y) in rel
    {
      TargetsStay(s, p, w, a, y);
      TargetIn(s.g, p, w, a, y);
    }
    EdgeMovesWithin(m.s, p, w, rel);
  }

  /** A merge that gets through has added the whole merged relation. */
  lemma AllAdded(s: State, p: nat, w: nat)
    requires WellFormed(s.g) && p < |s.g| && w < |s.g| && p != w && NoReader(s.g, p) && AllStop(s.g, w)
    requires !s.cyclic && Acyclic(Pairs(s.g)) && AllMoves(s, p, w).Done? && AllMoves(s, p, w).ok
    ensures MergedRel(s.g, p, w) <= Pairs(AllMoves(s, p, w).s.g)
  {
    hide WellFormed, Acyclic, BackMoves, EdgeMoves, Stops, Pairs, IsSource, IsTarget, Merging, Bound;
    StartKeeps(s.g, p, w);
    AllMovesKeep(s, p, w, OffNode(Pairs(s.g), p));
    BackMovesShape(s, p, w);
    var b, h := BackMoves(s, p, w), AllMoves(s, p, w).s.g;
    forall x: nat, y: nat | (x, y) in MergedRel(s.g, p, w)
      ensures (x, y) in Pairs(h)
    {
      MergedAway(s.g, p, w, x, y);
      if (x, y) in Into(Sources(s.g, p, w), w) {
        BackMovesAdds(s, p, w, x);
        EdgeMovesKeepPairs(b.s, p, w, x, y);
      } else if (x, y) in Targets(s.g, p, w) {
        TargetsStay(s, p, w, x, y);
        EdgeMovesAdds(b.s, p, w, x, y);
      }
    }
  }

  // ----- the merge -----

  /** With the flag down, a merge that ends succeeds exactly if the merged relation has no cycle. */
  lemma MovesExactly(s: State, p: nat, w: nat)
    requires WellFormed(s.g) && p < |s.g| && w < |s.g| && p != w && NoReader(s.g, p) && AllStop(s.g, w)
    requires !s.cyclic && Acyclic(Pairs(s.g))
    ensures var m := AllMoves(s, p, w); m.Done? ==> (m.ok <==> Acyclic(MergedRel(s.g, p, w)))
  {
    hide WellFormed, Acyclic, MergedRel, Pairs, Reach, Stops, BackMoves, EdgeMoves, Merging, Bound, IsSource, IsTarget;
    var m := AllMoves(s, p, w);
    if m.Done? {
      StartKeeps(s.g, p, w);
      AllMovesKeep(s, p, w, OffNode(Pairs(s.g), p));
      if m.ok {
        AllAdded(s, p, w);
        AcyclicMono(MergedRel(s.g, p, w), Pairs(m.s.g));
      }
      if Acyclic(MergedRel(s.g, p, w)) {
        WholeAcyclic(s.g, p, w);
        AllWithin(s, p, w, Pairs(s.g) + MergedRel(s.g, p, w));
      }
    }
  }

  /** The merged relation of the graph in which w has p's reader. */
  ghost function AsMerged(g: Graph, p: nat, w: nat): Rel
    requires p < |g| && w < |g|
  {
    MergedRel(HandedOver(g, p, w), p, w)
  }

  /**
   * A merge that ends succeeds exactly if the flag was down, the readers do not clash, and there is no cycle once p and
   * w are one node with the reader of p, in its own edges and those that follow from readers behind them.
   */
  lemma MergeExactly(s: State, p: nat, w: nat, rank: seq<nat>)
    requires WellFormed(s.g) && p < |s.g| && w < |s.g| && p != w && NoReader(s.g, p) && Ranked(s.g, rank)
             && (!s.cyclic ==> Acyclic(Pairs(s.g)))
    ensures var m := Merge(s, p, w);
            m.Done? ==> (m.ok <==> !s.cyclic && !ReadersClash(s.g, p, w) && Acyclic(AsMerged(s.g, p, w)))
  {
    hide WellFormed, Acyclic, AllMoves, MergedRel, Ranked, Stops, NoReader;
    FlagStaysUp(s, p, w);
    if !ReadersClash(s.g, p, w) && !s.cyclic {
      HandedOverShape(s.g, p, w);
      HandedStops(s.g, rank, p, w);
      MovesExactly(State(HandedOver(s.g, p, w), false), p, w);
    }
  }

  /** After every run of calls without merges, exactly those merges succeed. */
  lemma RunMergesExactly(ts: seq<Tracking>, cs: seq<Call>, i: nat, p: nat, w: nat)
    requires IsRun(ts, cs) && i < |ts|
    requires var g := ts[i].now.s.g; p < |g| && w < |g| && p != w && NoReader(g, p)
    ensures var s := ts[i].now.s;
            && WellFormed(s.g) && Merge(s, p, w).Done?
            && (Merge(s, p, w).ok <==> !s.cyclic && !ReadersClash(s.g, p, w) && Acyclic(AsMerged(s.g, p, w)))
  {
    hide IsRun, WellFormed, Acyclic, Merge, AsMerged, Ranked, NoReader, Pairs, Step;
    RunMerges(ts, cs, i, p, w);
    RunGood(ts, cs, i);
    MergeExactly(ts[i].now.s, p, w, ts[i].now.rank);
  }
}
