/** Chains of readers that a merge bends into a circle: what the merge does then, and which calls go on for ever. */
module GraphCircles {
  import opened GraphTheory
  import opened GraphRollback
  import opened GraphRuns
  import opened GraphMerge

  // ----- nodes on a chain -----

  /** The walk along the readers from r comes to x. */
  ghost predicate OnChain(g: Graph, r: nat, x: nat) {
    Stops(g, r, x) && ChainStop(g, r, x) == x
  }

  lemma OnChainStep(g: Graph, r: nat, x: nat)
    requires r < |g|
    ensures OnChain(g, r, x) <==> r == x || (g[r].rmw.Some? && OnChain(g, g[r].rmw.value, x))
  {
    ChainStopStep(g, r, x);
  }

  /** Every node of a chain that ends at w leads to w. */
  lemma {:induction false} ChainSplit(g: Graph, r: nat, x: nat, w: nat, n: nat)
    requires StopsIn(g, r, w, n) && OnChain(g, r, x) && OnChain(g, r, w) && Unread(g, w)
    ensures OnChain(g, x, w)
    decreases n
  {
    if r != x {
      OnChainStep(g, r, x);
      OnChainStep(g, r, w);
      ChainSplit(g, g[r].rmw.value, x, w, n - 1);
    }
  }

  lemma {:induction false} ChainExtends(g: Graph, r: nat, x: nat, n: nat)
    requires StopsIn(g, r, x, n) && OnChain(g, r, x) && x < |g| && g[x].rmw.Some? && g[x].rmw.value < |g|
    ensures OnChain(g, r, g[x].rmw.value)
    decreases n
  {
    var z := g[x].rmw.value;
    OnChainStep(g, r, x);
    OnChainStep(g, r, z);
    OnChainStep(g, z, z);
    if r != x {
      ChainExtends(g, g[r].rmw.value, x, n - 1);
    }
  }

  /** A walk that misses its target stops at the end of the chain. */
  lemma {:induction false} EndUnique(g: Graph, r: nat, y: nat, w: nat, n: nat)
    requires StopsIn(g, r, y, n) && !OnChain(g, r, y) && OnChain(g, r, w) && Unread(g, w)
    ensures ChainStop(g, r, y) == w
    decreases n
  {
    OnChainStep(g, r, y);
    OnChainStep(g, r, w);
    ChainStopStep(g, r, y);
    if g[r].rmw.Some? {
      EndUnique(g, g[r].rmw.value, y, w, n - 1);
    }
  }

  // ----- handing over the reader -----

  /** The reader of p can be handed to w, which stands at the end of its chain. */
  ghost predicate Circular(g: Graph, p: nat, w: nat)
    requires p < |g|
  {
    g[p].rmw.Some? && Unread(g, w) && OnChain(g, g[p].rmw.value, w)
  }

  /** A reader can be handed to a node off its chain: chains still end. */
  lemma HandOverRank(g: Graph, rank: seq<nat>, w: nat, r: nat) returns (rank': seq<nat>)
    requires Ranked(g, rank) && r < |g| && Unread(g, w) && !OnChain(g, r, w)
    ensures Ranked(SetRmw(g, w, r), rank')
  {
    var shift := rank[r] + 1;
    rank' := seq(|g|, x requires 0 <= x < |g| => if OnChain(g, x, w) then rank[x] + shift else rank[x]);
    var h := SetRmw(g, w, r);
    OnChainStep(g, w, w);
    forall a | 0 <= a < |h| && h[a].rmw.Some?
      ensures h[a].rmw.value < |h| && rank'[h[a].rmw.value] < rank'[a]
    {
      OnChainStep(g, a, w);
    }
  }

  /** On the circle a walk towards another node of the circle stops. */
  lemma {:induction false} CircleStops(g: Graph, w: nat, r: nat, x: nat, y: nat, n: nat)
    requires StopsIn(g, x, y, n) && OnChain(g, x, y) && Unread(g, w) && r < |g|
    ensures StopsIn(SetRmw(g, w, r), x, y, n)
    decreases n
  {
    if x != y {
      OnChainStep(g, x, y);
      CircleStops(g, w, r, g[x].rmw.value, y, n - 1);
    }
  }

  /** A walk towards any other node goes round for ever. */
  lemma {:induction false} CircleTurns(g: Graph, w: nat, r: nat, x: nat, y: nat, n: nat)
    requires forall a :: 0 <= a < |g| && g[a].rmw.Some? ==> g[a].rmw.value < |g|
    requires r < |g| && Unread(g, w) && OnChain(g, r, w) && OnChain(g, r, x) && !OnChain(g, r, y)
    ensures !StopsIn(SetRmw(g, w, r), x, y, n)
    decreases n
  {
    var h := SetRmw(g, w, r);
    if x < |g| {
      var k: nat :| StopsIn(g, r, w, k);
      ChainSplit(g, r, x, w, k);
      OnChainStep(g, x, w);
      OnChainStep(g, r, r);
      if x != w {
        var m: nat :| StopsIn(g, r, x, m);
        ChainExtends(g, r, x, m);
      }
      if n > 0 {
        CircleTurns(g, w, r, h[x].rmw.value, y, n - 1);
      }
    }
  }

  /** After handing over to the end of the chain, exactly the walks towards its nodes stop. */
  lemma CircleExactly(g: Graph, w: nat, r: nat, y: nat)
    requires forall a :: 0 <= a < |g| && g[a].rmw.Some? ==> g[a].rmw.value < |g|
    requires r < |g| && Unread(g, w) && OnChain(g, r, w)
    ensures Stops(SetRmw(g, w, r), r, y) <==> OnChain(g, r, y)
  {
    if OnChain(g, r, y) {
      var n: nat :| StopsIn(g, r, y, n);
      CircleStops(g, w, r, r, y, n);
    } else {
      OnChainStep(g, r, r);
      forall n: nat
        ensures !StopsIn(SetRmw(g, w, r), r, y, n)
      {
        CircleTurns(g, w, r, r, y, n);
      }
    }
  }

  /** Handing a reader over makes some walk go on for ever exactly if the write is on the reader's chain. */
  lemma HandOverExactly(g: Graph, rank: seq<nat>, w: nat, r: nat)
    requires Ranked(g, rank) && r < |g| && Unread(g, w)
    ensures OnChain(g, r, w) <==> exists x, y :: 0 <= x < |g| && !Stops(SetRmw(g, w, r), x, y)
  {
    if OnChain(g, r, w) {
      CircleExactly(g, w, r, |g|);
      assert !OnChain(g, r, |g|) by {
        if n: nat :| StopsIn(g, r, |g|, n) {
          StopsSame(g, r, |g|, n);
          StopsHere(g, r, |g|, n);
        }
      }
    } else {
      var rank' := HandOverRank(g, rank, w, r);
      forall x, y | 0 <= x < |g|
        ensures Stops(SetRmw(g, w, r), x, y)
      {
        RankedStops(SetRmw(g, w, r), rank', x, y);
      }
    }
  }

  lemma {:induction false} StopsHere(g: Graph, r: nat, to: nat, n: nat)
    requires StopsIn(g, r, to, n)
    ensures StopIn(g, r, to, n) < |g|
    decreases n
  {
    if r != to && g[r].rmw.Some? {
      StopsHere(g, g[r].rmw.value, to, n - 1);
    }
  }

  // ----- the loops, step by step -----

  /** Every walk towards w stops. */
  ghost predicate AllStop(g: Graph, w: nat) {
    forall x :: 0 <= x < |g| ==> Stops(g, x, w)
  }

  /** Adding the edge from y to w gives w an edge from a: y itself or, behind a new edge, the end of y's chain. */
  ghost predicate Moves(g: Graph, w: nat, y: nat, a: nat)
    requires y < |g|
  {
    a == y || (w !in g[y].edges && g[y].rmw.Some? && a == ChainStop(g, g[y].rmw.value, w) && a != w)
  }

  lemma AddMoves(s: State, y: nat, w: nat)
    requires y < |s.g| && w < |s.g|
    ensures var t := AddNodeEdge(s, y, w);
            forall a: nat, b: nat :: (a, b) in Pairs(t.g) <==> (a, b) in Pairs(s.g) || (b == w && Moves(s.g, w, y, a))
  {
    hide AddNodeEdge, ChainStop, PushEdge;
    if w !in s.g[y].edges {
      var e := AddNodeEdgePairs(s, y, w);
      if s.g[y].rmw.Some? {
        var h := PushEdge(s.g, y, w);
        PushEdgeShape(s.g, y, w);
        SameStops(s.g, h, s.g[y].rmw.value, w);
      }
    } else {
      AddOld(s, y, w);
    }
  }

  lemma AddOld(s: State, from: nat, to: nat)
    requires from < |s.g| && to < |s.g| && to in s.g[from].edges
    ensures AddNodeEdge(s, from, to) == s
  {
  }

  lemma DroppedMoves(g: Graph, h: Graph, p: nat, w: nat, y: nat, a: nat)
    requires Dropped(g, h, y, p) && y < |g| && p != w
    ensures Moves(h, w, y, a) <==> Moves(g, w, y, a)
  {
    hide WellFormed;
    assert w in h[y].edges <==> (y, w) in Pairs(h);
    assert w in g[y].edges <==> (y, w) in Pairs(g);
    if g[y].rmw.Some? {
      SameStops(g, h, g[y].rmw.value, w);
    }
  }

  /** What one turn over the back edges adds leads to w. */
  lemma BackTurn(s: State, p: nat, w: nat)
    requires WellFormed(s.g) && p < |s.g| && w < |s.g| && p != w && s.g[p].back != []
    ensures var y, t := s.g[p].back[|s.g[p].back| - 1], MovedBack(s, p, w);
            && y < |s.g| && |t.g| == |s.g|
            && forall a: nat, b: nat ::
                 (a, b) in Pairs(t.g) <==>
                   ((a, b) in Pairs(s.g) && (a, b) != (y, p)) || (y != w && b == w && Moves(s.g, w, y, a))
  {
    hide AddNodeEdge, Dropped, Moves, Pairs;
    PopBackDrops(s.g, p);
    var y := s.g[p].back[|s.g[p].back| - 1];
    var h := PopBack(s.g, p);
    DroppedPairs(s.g, h, y, p);
    if y != w {
      AddNodeEdgeShape(State(h, s.cyclic), y, w);
      AddMoves(State(h, s.cyclic), y, w);
      forall a: nat | true
        ensures Moves(h, w, y, a) <==> Moves(s.g, w, y, a)
      {
        DroppedMoves(s.g, h, p, w, y, a);
      }
    }
  }

  lemma DroppedPairs(g: Graph, h: Graph, a: nat, b: nat)
    requires Dropped(g, h, a, b)
    ensures WellFormed(h) && |h| == |g| && Pairs(h) == Pairs(g) - {(a, b)}
  {
  }

  /** One turn over the edges keeps the other pairs and the edges of w. */
  lemma EdgeTurn(s: State, p: nat, w: nat)
    requires WellFormed(s.g) && p < |s.g| && w < |s.g| && p != w && s.g[p].edges != []
    ensures var y, t := s.g[p].edges[|s.g[p].edges| - 1], MovedEdge(s, p, w);
            && y < |s.g| && |t.g| == |s.g|
            && (forall a: nat, b: nat :: (a, b) in Pairs(s.g) && (a, b) != (p, y) ==> (a, b) in Pairs(t.g))
  {
    PopEdgeDrops(s.g, p);
    var y := s.g[p].edges[|s.g[p].edges| - 1];
    var h := PopEdge(s.g, p);
    if y != w {
      AddNodeEdgeShape(State(h, s.cyclic), w, y);
    }
  }

  lemma BackTurnEnds(g: Graph, p: nat, w: nat)
    requires WellFormed(g) && p < |g| && w < |g| && g[p].back != [] && AllStop(g, w)
    ensures BackEnds(g, p, w)
  {
    PopBackDrops(g, p);
    var y := g[p].back[|g[p].back| - 1];
    if g[y].rmw.Some? {
      SameStops(g, PopBack(g, p), g[y].rmw.value, w);
    }
  }

  lemma AllStopSame(g: Graph, h: Graph, w: nat)
    requires |h| == |g| && AllStop(g, w) && forall a :: 0 <= a < |g| && a != w ==> h[a].rmw == g[a].rmw
    ensures AllStop(h, w)
  {
    forall x | 0 <= x < |h|
      ensures Stops(h, x, w)
    {
      SameStops(g, h, x, w);
    }
  }

  /** The loop over the back edges ends; pairs that do not lead to p stay, and new ones lead to w. */
  lemma {:induction false} BackMovesEnd(s: State, p: nat, w: nat)
    requires WellFormed(s.g) && p < |s.g| && w < |s.g| && p != w && AllStop(s.g, w)
    ensures var m := BackMoves(s, p, w);
            && m.Done?
            && (forall a: nat, b: nat :: (a, b) in Pairs(s.g) && b != p ==> (a, b) in Pairs(m.s.g))
            && (forall a: nat, b: nat :: (a, b) in Pairs(m.s.g) ==> (a, b) in Pairs(s.g) || b == w)
    decreases |s.g[p].back|
  {
    hide WellFormed, MovedBack, BackEnds, Stops, Pairs;
    if s.g[p].back != [] {
      MovedBackShape(s, p, w);
      BackTurnEnds(s.g, p, w);
      BackTurn(s, p, w);
      AllStopSame(s.g, MovedBack(s, p, w).g, w);
      BackMovesEnd(MovedBack(s, p, w), p, w);
    }
  }

  /** Every edge of p can be moved. */
  ghost predicate EdgesEnd(g: Graph, p: nat, w: nat)
    requires p < |g|
  {
    forall y :: y in g[p].edges && y != w ==> Ends(g, w, y)
  }

  lemma EdgeTurnEnds(s: State, p: nat, w: nat)
    requires WellFormed(s.g) && p < |s.g| && w < |s.g| && p != w && NoReader(s.g, p) && s.g[p].edges != []
    requires EdgesEnd(s.g, p, w)
    ensures EdgeEnds(s.g, p, w) && |MovedEdge(s, p, w).g| == |s.g| && EdgesEnd(MovedEdge(s, p, w).g, p, w)
  {
    hide MovedEdge, Stops;
    PopEdgeDrops(s.g, p);
    MovedEdgeShape(s, p, w);
    EdgeTurn(s, p, w);
    var t, h := MovedEdge(s, p, w), PopEdge(s.g, p);
    var y := s.g[p].edges[|s.g[p].edges| - 1];
    assert y in s.g[p].edges;
    if s.g[w].rmw.Some? {
      SameStops(s.g, h, s.g[w].rmw.value, y);
    }
    SplitLast(s.g[p].edges);
    forall z | z in t.g[p].edges && z != w
      ensures Ends(t.g, w, z)
    {
      assert Ends(s.g, w, z);
      assert z in s.g[w].edges ==> (w, z) in Pairs(s.g);
      if s.g[w].rmw.Some? {
        SameStops(s.g, t.g, s.g[w].rmw.value, z);
      }
    }
  }

  lemma {:induction false} EdgeMovesEnd(s: State, p: nat, w: nat)
    requires WellFormed(s.g) && p < |s.g| && w < |s.g| && p != w && NoReader(s.g, p) && EdgesEnd(s.g, p, w)
    ensures EdgeMoves(s, p, w).Done?
    decreases |s.g[p].edges|
  {
    hide WellFormed, MovedEdge, EdgeEnds, Stops, EdgesEnd;
    if s.g[p].edges != [] {
      MovedEdgeShape(s, p, w);
      EdgeTurnEnds(s, p, w);
      EdgeMovesEnd(MovedEdge(s, p, w), p, w);
    }
  }

  // ----- what calls other than merges keep -----

  /** The edge from a write to b is also one from the end of its readers' chain, unless b is on that chain. */
  ghost predicate CoveredAt(g: Graph, a: nat, b: nat)
    requires a < |g|
  {
    g[a].rmw.Some? ==>
      var r := g[a].rmw.value;
      Stops(g, r, b) && (ChainStop(g, r, b) == b || (ChainStop(g, r, b), b) in Pairs(g))
  }

  ghost predicate Covered(g: Graph) {
    forall a: nat, b: nat {:trigger CoveredAt(g, a, b)} :: (a, b) in Pairs(g) ==> a < |g| && CoveredAt(g, a, b)
  }

  lemma CoveredSame(g: Graph, h: Graph, a: nat, b: nat)
    requires |h| == |g| && (forall x :: 0 <= x < |g| ==> h[x].rmw == g[x].rmw) && Pairs(g) <= Pairs(h)
    requires a < |g| && CoveredAt(g, a, b)
    ensures CoveredAt(h, a, b)
  {
    if g[a].rmw.Some? {
      SameStops(g, h, g[a].rmw.value, b);
    }
  }

  /** Adding an edge keeps the edges covered. */
  lemma AddNodeEdgeCovered(s: State, from: nat, to: nat)
    requires WellFormed(s.g) && Covered(s.g) && Ends(s.g, from, to) && to < |s.g|
    ensures Covered(AddNodeEdge(s, from, to).g)
  {
    hide WellFormed, CoveredAt, Stops, AddNodeEdge, ChainStop;
    var t := AddNodeEdge(s, from, to);
    AddNodeEdgeShape(s, from, to);
    AddMoves(s, from, to);
    forall a: nat, b: nat | (a, b) in Pairs(t.g)
      ensures a < |t.g| && CoveredAt(t.g, a, b)
    {
      if (a, b) in Pairs(s.g) {
        assert CoveredAt(s.g, a, b);
        CoveredSame(s.g, t.g, a, b);
      } else {
        NewCovered(s, from, to, a);
      }
    }
  }

  lemma NewCovered(s: State, from: nat, to: nat, a: nat)
    requires WellFormed(s.g) && Ends(s.g, from, to) && to < |s.g| && (from, to) !in Pairs(s.g)
             && Moves(s.g, to, from, a)
    ensures var t := AddNodeEdge(s, from, to); a < |t.g| && CoveredAt(t.g, a, to)
  {
    hide WellFormed, Stops, AddNodeEdge, ChainStop;
    var t := AddNodeEdge(s, from, to);
    AddNodeEdgeShape(s, from, to);
    AddMoves(s, from, to);
    if a == from && s.g[from].rmw.Some? {
      var r := s.g[from].rmw.value;
      SameStops(s.g, t.g, r, to);
      assert ChainStop(s.g, r, to) != to ==> Moves(s.g, to, from, ChainStop(s.g, r, to));
    }
  }

  /** With a first reader attached, walks that stopped at the write stop at the reader. */
  lemma {:induction false} AttachWalk(g: Graph, from: nat, rmw: nat, x: nat, b: nat, n: nat)
    requires Unread(g, from) && Unread(g, rmw) && from != rmw && StopsIn(g, x, b, n)
    ensures var h := SetRmw(g, from, rmw);
            && Stops(h, x, b)
            && ChainStop(h, x, b) == (if ChainStop(g, x, b) == from && from != b then rmw else ChainStop(g, x, b))
    decreases n
  {
    var h := SetRmw(g, from, rmw);
    ChainStopStep(g, x, b);
    ChainStopStep(h, x, b);
    if x == from && x != b {
      ChainStopStep(h, rmw, b);
    } else if x != b && g[x].rmw.Some? {
      AttachWalk(g, from, rmw, g[x].rmw.value, b, n - 1);
    }
  }

  lemma CopiedCovered(s: State, from: nat, rmw: nat)
    requires WellFormed(s.g) && Covered(s.g) && from < |s.g| && Unread(s.g, rmw) && from != rmw
    ensures InRange(s.g, s.g[from].edges) && Covered(Copied(s, from, rmw).g)
  {
    hide WellFormed, CoveredAt, Stops, ChainStop;
    TargetsInRange(s.g, from);
    SetRmwFacts(s.g, from, rmw);
    var g, ts := Attached(s.g, from, rmw), s.g[from].edges;
    var h := Copied(s, from, rmw).g;
    CopyEdgesRmw(g, rmw, ts);
    CopyEdgesFacts(g, rmw, ts);
    forall a: nat, b: nat | (a, b) in Pairs(h)
      ensures a < |h| && CoveredAt(h, a, b)
    {
      if (a, b) in Pairs(s.g) {
        assert CoveredAt(s.g, a, b);
        if s.g[from].rmw.Some? {
          CoveredSame(s.g, h, a, b);
        } else {
          AttachedCovered(s.g, h, from, rmw, a, b);
        }
      } else {
        assert a == rmw && h[rmw].rmw.None?;
        UnreadCovered(h, rmw, b);
      }
    }
  }

  lemma UnreadCovered(g: Graph, a: nat, b: nat)
    requires Unread(g, a)
    ensures CoveredAt(g, a, b)
  {
  }

  lemma AttachedCovered(g: Graph, h: Graph, from: nat, rmw: nat, a: nat, b: nat)
    requires Unread(g, from) && Unread(g, rmw) && from != rmw && |h| == |g|
    requires forall x :: 0 <= x < |g| ==> h[x].rmw == SetRmw(g, from, rmw)[x].rmw
    requires forall x: nat, y: nat {:trigger (x, y) in Pairs(h)} ::
               (x, y) in Pairs(h) <==> (x, y) in Pairs(g) || (x == rmw && y in g[from].edges && y != rmw)
    requires (a, b) in Pairs(g) && a < |g| && CoveredAt(g, a, b)
    ensures CoveredAt(h, a, b)
  {
    var g1 := SetRmw(g, from, rmw);
    if a == from {
      ChainStopStep(h, rmw, b);
      assert b != rmw ==> (rmw, b) in Pairs(h);
    } else if g[a].rmw.Some? {
      var r := g[a].rmw.value;
      var n: nat :| StopsIn(g, r, b, n);
      AttachWalk(g, from, rmw, r, b, n);
      SameStops(g1, h, r, b);
      var e := ChainStop(g, r, b);
      if e != b {
        assert (e, b) in Pairs(g) && (e, b) in Pairs(h);
        assert e == from && b != rmw ==> (rmw, b) in Pairs(h);
      }
    }
  }

  /** Attaching a reader keeps the edges covered. */
  lemma AddRmwEdgeCovered(s: State, from: nat, rmw: nat)
    requires WellFormed(s.g) && Covered(s.g) && from < |s.g| && Unread(s.g, rmw) && from != rmw && Ends(s.g, from, rmw)
    ensures InRange(s.g, s.g[from].edges) && Covered(AddRmwEdge(s, from, rmw).g)
  {
    hide WellFormed, Covered, AddNodeEdge, Ends;
    AttachShape(s, from, rmw);
    CopiedCovered(s, from, rmw);
    AddNodeEdgeCovered(Copied(s, from, rmw), from, rmw);
  }

  lemma PaddedCoveredAt(g: Graph, k: nat, a: nat, b: nat)
    requires a < |g| && CoveredAt(g, a, b)
    ensures CoveredAt(Padded(g, k), a, b)
  {
    var h := Padded(g, k);
    PaddedAt(g, k);
    if g[a].rmw.Some? {
      var r := g[a].rmw.value;
      var n: nat :| StopsIn(g, r, b, n);
      PaddedStopsIn(g, k, r, b, n);
      StopsSame(g, r, b, n);
      StopsSame(h, r, b, n);
      assert (StopIn(g, r, b, n), b) in Pairs(g) ==> (StopIn(g, r, b, n), b) in Pairs(h);
    }
  }

  lemma PaddedCovered(g: Graph, k: nat)
    requires Covered(g)
    ensures Covered(Padded(g, k))
  {
    hide CoveredAt;
    var h := Padded(g, k);
    PaddedAt(g, k);
    forall a: nat, b: nat | (a, b) in Pairs(h)
      ensures a < |h| && CoveredAt(h, a, b)
    {
      assert (a, b) in Pairs(g);
      assert CoveredAt(g, a, b);
      PaddedCoveredAt(g, k, a, b);
    }
  }

  lemma StepCovered(t: Tracking, c: Call)
    requires Good(t) && Allowed(t, c) && Covered(t.now.s.g) && Covered(t.last.s.g)
    ensures Covered(Step(t, c).now.s.g) && Covered(Step(t, c).last.s.g)
  {
    hide Inv, Covered, AddNodeEdge, AddRmwEdge, Extends, Stops;
    SoundWellFormed(t.now);
    var g, rank := t.now.s.g, t.now.rank;
    match c
    case NewNode =>
      PaddedCovered(g, 1);
      assert Padded(g, 1) == Padded(g, 0) + [EMPTY_NODE];
    case AddEdge(from, to) =>
      RankedEnds(g, rank, from, to);
      AddNodeEdgeCovered(t.now.s, from, to);
    case AddReader(write, rmw) =>
      RankedEnds(g, rank, write, rmw);
      AddRmwEdgeCovered(t.now.s, write, rmw);
    case Commit =>
    case Rollback =>
      StepRollbackGood(t);
      PaddedCovered(t.last.s.g, |Step(t, Rollback).now.s.g| - |t.last.s.g|);
  }

  /** In every state of every run of calls without merges the edges are covered. */
  lemma {:induction false} RunCovered(ts: seq<Tracking>, cs: seq<Call>, i: nat)
    requires IsRun(ts, cs) && i < |ts|
    ensures Covered(ts[i].now.s.g) && Covered(ts[i].last.s.g)
  {
    hide Covered, Step, Good, Allowed;
    if i == 0 {
      EmptyCovered();
    } else {
      RunGood(ts, cs, i - 1);
      RunCovered(ts, cs, i - 1);
      assert StepsTo(ts[i - 1], cs[i - 1], ts[i - 1 + 1]);
      StepCovered(ts[i - 1], cs[i - 1]);
    }
  }

  lemma EmptyCovered()
    ensures Covered([])
  {
    assert Pairs([]) == {};
  }
}
