/** How merging a promise node into a write node turns out: true, false, or never. */
module MergeOutcomes {
  import opened Relations
  import opened GraphTheory
  import opened GraphRollback
  import opened GraphRuns
  import opened GraphMerge
  import opened GraphCircles

  // ----- merges that end -----

  lemma HandedStops(g: Graph, rank: seq<nat>, p: nat, w: nat)
    requires Ranked(g, rank) && p < |g| && w < |g|
    ensures AllStop(HandedOver(g, p, w), w)
  {
    forall x | 0 <= x < |g|
      ensures Stops(g, x, w)
    {
      RankedStops(g, rank, x, w);
    }
    AllStopSame(g, HandedOver(g, p, w), w);
  }

  /**
   * Once the reader is handed over, an edge of p can be moved unless the chain is circular and the edge not covered.
   */
  lemma HandedEnds(g: Graph, rank: seq<nat>, p: nat, w: nat, y: nat)
    requires WellFormed(g) && Ranked(g, rank) && p < |g| && w < |g| && !ReadersClash(g, p, w)
    requires Circular(g, p, w) ==> CoveredAt(g, p, y)
    ensures Ends(HandedOver(g, p, w), w, y)
  {
    var h := HandedOver(g, p, w);
    if g[p].rmw.Some? && g[w].rmw.None? {
      var r := g[p].rmw.value;
      if OnChain(g, r, w) {
        CircleExactly(g, w, r, y);
        if !OnChain(g, r, y) {
          var n: nat :| StopsIn(g, r, y, n);
          EndUnique(g, r, y, w, n);
        }
      } else {
        var rank' := HandOverRank(g, rank, w, r);
        RankedEnds(h, rank', w, y);
      }
    } else {
      RankedEnds(g, rank, w, y);
    }
  }

  lemma EndsSame(g: Graph, h: Graph, p: nat, w: nat, y: nat)
    requires SameReaders(g, h) && y != p && Ends(g, w, y)
    requires forall a: nat, b: nat :: (a, b) in Pairs(g) && b != p ==> (a, b) in Pairs(h)
    ensures Ends(h, w, y)
  {
    assert y in g[w].edges ==> (w, y) in Pairs(g);
    if g[w].rmw.Some? {
      SameStops(g, h, g[w].rmw.value, y);
    }
  }

  /** A merge ends wherever the edges are covered, and always if the write is not on the chain of p's reader. */
  lemma MergeEnds(s: State, p: nat, w: nat, rank: seq<nat>)
    requires WellFormed(s.g) && p < |s.g| && w < |s.g| && p != w && NoReader(s.g, p) && Ranked(s.g, rank)
    requires Circular(s.g, p, w) ==> Covered(s.g)
    ensures Merge(s, p, w).Done?
  {
    hide WellFormed, Stops, BackMoves, EdgeMoves, Circular, CoveredAt, Ends, OnChain;
    if !ReadersClash(s.g, p, w) {
      var h := HandedOver(s.g, p, w);
      var t := State(h, s.cyclic);
      HandedOverShape(s.g, p, w);
      HandedStops(s.g, rank, p, w);
      BackMovesEnd(t, p, w);
      BackMovesShape(t, p, w);
      var m := BackMoves(t, p, w);
      if m.ok {
        forall y | y in m.s.g[p].edges && y != w
          ensures Ends(m.s.g, w, y)
        {
          assert (p, y) in Pairs(m.s.g) && (p, y) in Pairs(s.g);
          assert Circular(s.g, p, w) ==> CoveredAt(s.g, p, y);
          HandedEnds(s.g, rank, p, w, y);
          NoLoop(m.s.g, p);
          EndsSame(h, m.s.g, p, w, y);
        }
        EdgeMovesEnd(m.s, p, w);
      }
    }
  }

  lemma NoLoop(g: Graph, p: nat)
    requires WellFormed(g) && p < |g| && g[p].back == []
    ensures p !in g[p].edges
  {
  }

  // ----- the back edges -----

  /** Moving p's back edges gives w an edge from a. */
  ghost predicate IsSource(g: Graph, p: nat, w: nat, a: nat)
    requires p < |g|
  {
    exists x :: x in g[p].back && x != w && x < |g| && Moves(g, w, x, a)
  }

  /** One of the edges to w that moving p's back edges adds closes a cycle. */
  ghost predicate BackCloses(g: Graph, p: nat, w: nat)
    requires p < |g|
  {
    exists a: nat :: IsSource(g, p, w, a) && Reach(Pairs(g), w, a)
  }

  ghost function Sources(g: Graph, p: nat, w: nat): set<nat>
    requires p < |g|
  {
    set a: nat | a < |g| && IsSource(g, p, w, a)
  }

  ghost function Into(A: set<nat>, w: nat): Rel {
    set a: nat | a in A :: (a, w)
  }

  /** Edges to w from nodes that w does not reach close no cycle. */
  lemma {:induction false} IntoAcyclic(rel: Rel, A: set<nat>, w: nat)
    requires Acyclic(rel) && forall a: nat :: a in A ==> !Reach(rel, w, a)
    ensures Acyclic(rel + Into(A, w))
    decreases |A|
  {
    hide Acyclic, Reach;
    if A == {} {
      assert rel + Into(A, w) == rel;
    } else {
      var a: nat :| a in A;
      var rest, more := A - {a}, rel + {(a, w)};
      AcyclicAdd(rel, a, w);
      ReachAdd(rel, a, w, w, a);
      forall b: nat | b in rest
        ensures !Reach(more, w, b)
      {
        ReachAdd(rel, a, w, w, b);
      }
      IntoAcyclic(more, rest, w);
      assert more + Into(rest, w) == rel + Into(A, w);
    }
  }

  lemma MovesInRange(g: Graph, w: nat, y: nat, a: nat)
    requires y < |g| && Moves(g, w, y, a)
    ensures a < |g|
  {
  }

  /** A turn leaves the other back edges as they were: they move as before. */
  lemma OthersMove(s: State, p: nat, w: nat, x: nat, a: nat)
    requires WellFormed(s.g) && p < |s.g| && w < |s.g| && p != w && s.g[p].back != []
    requires x < |s.g| && x != s.g[p].back[|s.g[p].back| - 1] && x != w
    ensures var t := MovedBack(s, p, w);
            && |t.g| == |s.g| && (Moves(t.g, w, x, a) ==> Moves(s.g, w, x, a))
            && (Moves(s.g, w, x, a) ==> Moves(t.g, w, x, a))
  {
    hide WellFormed, MovedBack, ChainStop;
    MovedBackShape(s, p, w);
    BackTurn(s, p, w);
    var t := MovedBack(s, p, w);
    assert w in s.g[x].edges <==> (x, w) in Pairs(s.g);
    assert w in t.g[x].edges <==> (x, w) in Pairs(t.g);
    if s.g[x].rmw.Some? {
      SameStops(s.g, t.g, s.g[x].rmw.value, w);
    }
  }

  lemma {:induction false} BackMovesWithin(s: State, p: nat, w: nat, rel: Rel)
    requires WellFormed(s.g) && p < |s.g| && w < |s.g| && p != w && AllStop(s.g, w) && !s.cyclic
    requires Acyclic(rel) && Pairs(s.g) <= rel && forall a: nat :: IsSource(s.g, p, w, a) ==> (a, w) in rel
    ensures var m := BackMoves(s, p, w); m.Done? && m.ok && !m.s.cyclic && Pairs(m.s.g) <= rel
    decreases |s.g[p].back|
  {
    hide WellFormed, MovedBack, BackEnds, Stops, Acyclic, Moves;
    if s.g[p].back != [] {
      var t := MovedBack(s, p, w);
      var y := s.g[p].back[|s.g[p].back| - 1];
      MovedBackShape(s, p, w);
      BackTurnEnds(s.g, p, w);
      BackTurn(s, p, w);
      AllStopSame(s.g, t.g, w);
      LastIn(s.g, p);
      forall a: nat, b: nat | (a, b) in Pairs(t.g)
        ensures (a, b) in rel
      {
        if (a, b) !in Pairs(s.g) {
          assert IsSource(s.g, p, w, a);
        }
      }
      TurnFlag(s, p, w, rel);
      forall a: nat | IsSource(t.g, p, w, a)
        ensures (a, w) in rel
      {
        var x :| x in t.g[p].back && x != w && x < |t.g| && Moves(t.g, w, x, a);
        OthersMove(s, p, w, x, a);
        assert IsSource(s.g, p, w, a);
      }
      BackMovesWithin(t, p, w, rel);
    }
  }

  lemma LastIn(g: Graph, p: nat)
    requires WellFormed(g) && p < |g| && g[p].back != []
    ensures var b := g[p].back;
            && b[|b| - 1] in b && b[|b| - 1] < |g| && b[|b| - 1] !in b[..|b| - 1]
            && forall x :: x in b <==> x == b[|b| - 1] || x in b[..|b| - 1]
  {
    assert NodeList(|g|, g[p].back);
    SplitLast(g[p].back);
  }

  lemma TurnFlag(s: State, p: nat, w: nat, rel: Rel)
    requires WellFormed(s.g) && p < |s.g| && w < |s.g| && p != w && s.g[p].back != [] && !s.cyclic
    requires Acyclic(rel) && Pairs(s.g) <= rel && Pairs(MovedBack(s, p, w).g) <= rel
    ensures !MovedBack(s, p, w).cyclic
  {
    hide Acyclic, AddNodeEdge;
    PopBackDrops(s.g, p);
    var y := s.g[p].back[|s.g[p].back| - 1];
    if y != w {
      var h := PopBack(s.g, p);
      AcyclicMono(Pairs(h), rel);
      AcyclicMono(Pairs(MovedBack(s, p, w).g), rel);
      AddNodeEdgeExact(State(h, false), y, w);
    }
  }

  /** A loop that gets through has added the edges of all sources. */
  lemma {:induction false} BackMovesAdds(s: State, p: nat, w: nat, a: nat)
    requires WellFormed(s.g) && p < |s.g| && w < |s.g| && p != w && AllStop(s.g, w) && IsSource(s.g, p, w, a)
    ensures BackMoves(s, p, w).Done? && BackMoves(s, p, w).ok ==> (a, w) in Pairs(BackMoves(s, p, w).s.g)
    decreases |s.g[p].back|
  {
    hide WellFormed, MovedBack, BackEnds, Stops, Moves;
    var x :| x in s.g[p].back && x != w && x < |s.g| && Moves(s.g, w, x, a);
    var t := MovedBack(s, p, w);
    MovedBackShape(s, p, w);
    BackTurnEnds(s.g, p, w);
    BackTurn(s, p, w);
    AllStopSame(s.g, t.g, w);
    LastIn(s.g, p);
    BackMovesEnd(t, p, w);
    if x != s.g[p].back[|s.g[p].back| - 1] {
      OthersMove(s, p, w, x, a);
      assert IsSource(t.g, p, w, a);
      BackMovesAdds(t, p, w, a);
    }
  }

  /** A path that never meets p stays when only edges to p go. */
  lemma ReachAvoids(g: Graph, h: Graph, p: nat, w: nat, a: nat)
    requires WellFormed(g) && w < |g| && !Reach(Pairs(g), w, p) && Reach(Pairs(g), w, a)
    requires forall x: nat, y: nat :: (x, y) in Pairs(g) && y != p ==> (x, y) in Pairs(h)
    ensures Reach(Pairs(h), w, a)
  {
    hide Reach;
    var S := set z: nat | z < |g| && Reach(Pairs(g), w, z) && Reach(Pairs(h), w, z);
    ReachRefl(Pairs(g), w);
    ReachRefl(Pairs(h), w);
    forall x, y | x in S && (x, y) in Pairs(g)
      ensures y in S
    {
      assert NodeList(|g|, g[x].edges);
      ReachPair(Pairs(g), x, y);
      ReachTrans(Pairs(g), w, x, y);
      ReachPair(Pairs(h), x, y);
      ReachTrans(Pairs(h), w, x, y);
    }
    ReachClosed(Pairs(g), S, w, a);
  }

  /** While the flag is down, the loop gets through exactly if none of its edges closes a cycle. */
  lemma BackMovesExactly(s: State, p: nat, w: nat)
    requires WellFormed(s.g) && p < |s.g| && w < |s.g| && p != w && NoReader(s.g, p) && AllStop(s.g, w)
    requires !s.cyclic && Acyclic(Pairs(s.g)) && !Reach(Pairs(s.g), w, p)
    ensures BackMoves(s, p, w).Done? && (BackMoves(s, p, w).ok <==> !BackCloses(s.g, p, w))
  {
    hide WellFormed, BackMoves, Stops, Acyclic, Moves, Reach;
    BackMovesEnd(s, p, w);
    var m := BackMoves(s, p, w);
    if BackCloses(s.g, p, w) {
      var a: nat :| IsSource(s.g, p, w, a) && Reach(Pairs(s.g), w, a);
      if m.ok {
        BackMovesAdds(s, p, w, a);
        ReachAvoids(s.g, m.s.g, p, w, a);
        BackMovesAcyclic(s, p, w);
        CycleThere(Pairs(m.s.g), a, w);
      }
    } else {
      var A := Sources(s.g, p, w);
      IntoAcyclic(Pairs(s.g), A, w);
      forall a: nat | IsSource(s.g, p, w, a)
        ensures (a, w) in Pairs(s.g) + Into(A, w)
      {
        var x :| x in s.g[p].back && x != w && x < |s.g| && Moves(s.g, w, x, a);
        MovesInRange(s.g, w, x, a);
      }
      BackMovesWithin(s, p, w, Pairs(s.g) + Into(A, w));
    }
  }

  lemma CycleThere(rel: Rel, a: nat, w: nat)
    requires (a, w) in rel && Reach(rel, w, a)
    ensures !Acyclic(rel)
  {
  }

  lemma BackMovesAcyclic(s: State, p: nat, w: nat)
    requires WellFormed(s.g) && p < |s.g| && w < |s.g| && p != w && NoReader(s.g, p)
    requires !s.cyclic && Acyclic(Pairs(s.g))
    ensures var m := BackMoves(s, p, w);
            m.Done? && m.ok ==>
              !m.s.cyclic && Acyclic(Pairs(m.s.g)) && |m.s.g| == |s.g| && m.s.g[p].edges == s.g[p].edges
  {
    BackMovesShape(s, p, w);
    var kept := BackMovesKeep(s.g, s, p, w, {});
  }

  // ----- the edges, on a circle -----

  /** The last of p's edges, read from the end, that w does not have. */
  ghost function LastNew(es: seq<nat>, known: seq<nat>, w: nat): Option<nat> {
    if es == [] then None
    else
      var y := es[|es| - 1];
      if y == w || y in known then LastNew(es[..|es| - 1], known, w) else Some(y)
  }

  lemma {:induction false} LastNewSame(es: seq<nat>, known: seq<nat>, known': seq<nat>, w: nat)
    requires forall y :: y in es && y != w ==> (y in known <==> y in known')
    ensures LastNew(es, known, w) == LastNew(es, known', w)
  {
    if es != [] {
      SplitLast(es);
      LastNewSame(es[..|es| - 1], known, known', w);
    }
  }

  lemma {:induction false} LastNewIn(es: seq<nat>, known: seq<nat>, w: nat)
    ensures match LastNew(es, known, w)
            case None => forall y :: y in es ==> y == w || y in known
            case Some(y) => y in es && y != w && y !in known
  {
    if es != [] {
      SplitLast(es);
      LastNewIn(es[..|es| - 1], known, w);
    }
  }

  /** The walks from r stop exactly for the nodes of C, and those all come before w. */
  ghost predicate Circle(g: Graph, p: nat, w: nat, r: nat, C: set<nat>) {
    && w < |g| && g[w].rmw == Some(r)
    && (forall y: nat {:trigger Stops(g, r, y)} :: Stops(g, r, y) <==> y in C)
    && (forall y: nat :: y in C ==> Reach(OffNode(Pairs(g), p), y, w))
  }

  lemma AddClosing(s: State, from: nat, to: nat)
    requires from < |s.g| && to < |s.g| && to !in s.g[from].edges && Reach(Pairs(s.g), to, from)
    ensures AddNodeEdge(s, from, to).cyclic
  {
    PushEdgePairs(s.g, from, to);
    ReachMono(Pairs(s.g), Pairs(PushEdge(s.g, from, to)), to, from);
  }

  /** A turn over an edge that w has changes nothing else; over a new one it closes a cycle or goes on for ever. */
  lemma CircleTurn(s: State, p: nat, w: nat, r: nat, C: set<nat>)
    requires WellFormed(s.g) && p < |s.g| && p != w && NoReader(s.g, p) && s.g[p].edges != [] && !s.cyclic
    requires Circle(s.g, p, w, r, C)
    ensures var y, t := s.g[p].edges[|s.g[p].edges| - 1], MovedEdge(s, p, w);
            if y == w || y in s.g[w].edges then
              && EdgeEnds(s.g, p, w) && !t.cyclic && Circle(t.g, p, w, r, C) && t.g[w].edges == s.g[w].edges
            else if y in C then EdgeEnds(s.g, p, w) && t.cyclic
            else !EdgeEnds(s.g, p, w)
  {
    hide WellFormed, AddNodeEdge, Stops, Reach;
    var y := s.g[p].edges[|s.g[p].edges| - 1];
    PopEdgeDrops(s.g, p);
    var h := PopEdge(s.g, p);
    assert OffNode(Pairs(h), p) == OffNode(Pairs(s.g), p);
    forall z: nat | true
      ensures Stops(h, r, z) <==> z in C
    {
      SameStops(s.g, h, r, z);
    }
    assert Circle(h, p, w, r, C);
    if y == w || y in s.g[w].edges {
      if y != w {
        AddOld(State(h, false), w, y);
      }
    } else if y in C {
      ReachMono(OffNode(Pairs(h), p), Pairs(h), y, w);
      AddClosing(State(h, false), w, y);
    }
  }

  /** On a circle the last new edge decides: none, and the loop gets through; one to the circle, and it fails. */
  lemma {:induction false} EdgeMovesCircle(s: State, p: nat, w: nat, r: nat, C: set<nat>)
    requires WellFormed(s.g) && p < |s.g| && w < |s.g| && p != w && NoReader(s.g, p) && !s.cyclic
    requires Circle(s.g, p, w, r, C)
    ensures var m := EdgeMoves(s, p, w);
            match LastNew(s.g[p].edges, s.g[w].edges, w)
            case None => m.Done? && m.ok && !m.s.cyclic
            case Some(y) => if y in C then m.Done? && !m.ok else m.Never?
    decreases |s.g[p].edges|
  {
    hide WellFormed, MovedEdge, EdgeEnds, Circle;
    if s.g[p].edges != [] {
      CircleTurn(s, p, w, r, C);
      MovedEdgeShape(s, p, w);
      var y := s.g[p].edges[|s.g[p].edges| - 1];
      if y == w || y in s.g[w].edges {
        EdgeMovesCircle(MovedEdge(s, p, w), p, w, r, C);
      }
    }
  }

  // ----- the outcome of every merge -----

  /** Readers on the chain behind p come after the writes they read. */
  ghost predicate ChainEdges(g: Graph, p: nat)
    requires p < |g|
  {
    g[p].rmw.Some? ==>
      var r := g[p].rmw.value;
      && (p, r) in Pairs(g)
      && forall x {:trigger OnChain(g, r, x)} :: 0 <= x < |g| && OnChain(g, r, x) && g[x].rmw.Some? ==>
           (x, g[x].rmw.value) in Pairs(g)
  }

  lemma {:induction false} ChainReachOff(g: Graph, p: nat, x: nat, w: nat, n: nat)
    requires WellFormed(g) && p < |g| && NoReader(g, p) && ChainEdges(g, p) && g[p].rmw.Some?
    requires OnChain(g, g[p].rmw.value, x) && x != p && StopsIn(g, x, w, n) && OnChain(g, x, w)
    ensures Reach(OffNode(Pairs(g), p), x, w)
    decreases n
  {
    hide WellFormed, Reach;
    var rel := OffNode(Pairs(g), p);
    ReachRefl(rel, x);
    if x != w {
      OnChainStep(g, x, w);
      var z := g[x].rmw.value;
      assert (x, z) in rel;
      var k: nat :| StopsIn(g, g[p].rmw.value, x, k);
      ChainExtends(g, g[p].rmw.value, x, k);
      ChainReachOff(g, p, z, w, n - 1);
      ReachPair(rel, x, z);
      ReachTrans(rel, x, z, w);
    }
  }

  /** The nodes of a chain. */
  ghost function Chain(g: Graph, r: nat): set<nat> {
    set y: nat | y < |g| && OnChain(g, r, y)
  }

  lemma ChainInRange(g: Graph, r: nat, y: nat)
    requires OnChain(g, r, y)
    ensures y < |g| && y in Chain(g, r)
  {
    var n: nat :| StopsIn(g, r, y, n);
    StopsSame(g, r, y, n);
    StopsHere(g, r, y, n);
  }

  lemma {:induction false} OnChainAway(g: Graph, r: nat, p: nat, n: nat)
    requires NoReader(g, p) && r != p && StopsIn(g, r, p, n)
    ensures !OnChain(g, r, p)
  {
    StopElsewhere(g, r, p, p, n);
    StopsSame(g, r, p, n);
  }

  /** After handing over and moving the back edges, the chain of p's reader is a circle. */
  lemma CircleMade(g: Graph, h: Graph, p: nat, w: nat)
    requires WellFormed(g) && p < |g| && p != w && NoReader(g, p) && ChainEdges(g, p) && Circular(g, p, w)
    requires g[p].rmw.value < |g|
    requires SameReaders(SetRmw(g, w, g[p].rmw.value), h)
    requires forall a: nat, b: nat :: (a, b) in Pairs(g) && b != p ==> (a, b) in Pairs(h)
    ensures Circle(h, p, w, g[p].rmw.value, Chain(g, g[p].rmw.value))
  {
    hide WellFormed, Reach, OnChain, Stops;
    var r := g[p].rmw.value;
    var C, g1 := Chain(g, r), SetRmw(g, w, r);
    assert forall a :: 0 <= a < |g| && g[a].rmw.Some? ==> g[a].rmw.value < |g| by { ReadersInRange(g); }
    forall y: nat | true
      ensures Stops(h, r, y) <==> y in C
    {
      SameStops(g1, h, r, y);
      CircleExactly(g, w, r, y);
      if OnChain(g, r, y) {
        ChainInRange(g, r, y);
      }
    }
    forall y: nat | y in C
      ensures Reach(OffNode(Pairs(h), p), y, w)
    {
      OnCircle(g, p, w, y);
      ReachMono(OffNode(Pairs(g), p), OffNode(Pairs(h), p), y, w);
    }
  }

  lemma ReadersInRange(g: Graph)
    requires WellFormed(g)
    ensures forall a :: 0 <= a < |g| && g[a].rmw.Some? ==> g[a].rmw.value < |g|
  {
  }

  lemma OnCircle(g: Graph, p: nat, w: nat, y: nat)
    requires WellFormed(g) && p < |g| && NoReader(g, p) && ChainEdges(g, p) && Circular(g, p, w)
    requires OnChain(g, g[p].rmw.value, y)
    ensures y != p && Reach(OffNode(Pairs(g), p), y, w)
  {
    hide WellFormed, Reach;
    var r := g[p].rmw.value;
    if y == p {
      var n: nat :| StopsIn(g, r, p, n);
      OnChainAway(g, r, p, n);
    }
    var k: nat :| StopsIn(g, r, w, k);
    ChainSplit(g, r, y, w, k);
    var n: nat :| StopsIn(g, y, w, n);
    ChainReachOff(g, p, y, w, n);
  }

  /** What the caller knows: p is a promise node apart from w, the flag is down, and chains are finite and in order. */
  ghost predicate Mergeable(s: State, p: nat, w: nat, rank: seq<nat>) {
    && WellFormed(s.g) && p < |s.g| && w < |s.g| && p != w && NoReader(s.g, p) && Ranked(s.g, rank)
    && !s.cyclic && Acyclic(Pairs(s.g)) && ChainEdges(s.g, p)
  }

  /**
   * A merge goes on for ever, fails or succeeds, as can be told beforehand. Where w is off the chain of p's reader it
   * ends. At the end of that chain it fails if moving the back edges closes a cycle; otherwise it succeeds if w has all
   * of p's edges, and the last edge that w lacks decides: it fails if that leads to the chain, and else never ends.
   */
  lemma CircularOutcome(s: State, p: nat, w: nat, rank: seq<nat>)
    requires Mergeable(s, p, w, rank)
    ensures var g, m := s.g, Merge(s, p, w);
            if !Circular(g, p, w) then m.Done?
            else if BackCloses(g, p, w) then m.Done? && !m.ok
            else
              match LastNew(g[p].edges, g[w].edges, w)
              case None => m.Done? && m.ok
              case Some(y) => if OnChain(g, g[p].rmw.value, y) then m.Done? && !m.ok else m.Never?
  {
    hide WellFormed, Reach, OnChain, Stops, Acyclic, BackMoves, EdgeMoves, BackCloses, Ranked;
    var g := s.g;
    if !Circular(g, p, w) {
      MergeEnds(s, p, w, rank);
    } else {
      var r := g[p].rmw.value;
      ReadersInRange(g);
      var h := HandedOver(g, p, w);
      var t := State(h, false);
      HandedOverShape(g, p, w);
      HandedStops(g, rank, p, w);
      NotBack(g, p, w);
      BackMovesExactly(t, p, w);
      HandedCloses(g, p, w);
      var m := BackMoves(t, p, w);
      if m.ok {
        BackMovesShape(t, p, w);
        BackMovesEnd(t, p, w);
        BackMovesAcyclic(t, p, w);
        CircleMade(g, m.s.g, p, w);
        EdgeMovesCircle(m.s, p, w, r, Chain(g, r));
        SameEdges(g, m.s.g, p, w);
        LastNewSame(g[p].edges, g[w].edges, m.s.g[w].edges, w);
        LastNewIn(g[p].edges, g[w].edges, w);
        if LastNew(g[p].edges, g[w].edges, w).Some? {
          var y := LastNew(g[p].edges, g[w].edges, w).value;
          TargetsInRange(g, p);
        }
      }
    }
  }

  /** w does not lead back to p, which comes before it. */
  lemma NotBack(g: Graph, p: nat, w: nat)
    requires WellFormed(g) && p < |g| && NoReader(g, p) && ChainEdges(g, p) && Circular(g, p, w) && Acyclic(Pairs(g))
    ensures !Reach(Pairs(g), w, p)
  {
    hide WellFormed, Reach;
    var r := g[p].rmw.value;
    ReadersInRange(g);
    OnChainStep(g, r, r);
    OnCircle(g, p, w, r);
    ReachMono(OffNode(Pairs(g), p), Pairs(g), r, w);
    if Reach(Pairs(g), w, p) {
      ReachTrans(Pairs(g), r, w, p);
      CycleThere(Pairs(g), p, r);
    }
  }

  /** Handing over changes neither the pairs nor the walks towards w. */
  lemma HandedCloses(g: Graph, p: nat, w: nat)
    requires WellFormed(g) && p < |g| && w < |g| && p != w
    ensures |HandedOver(g, p, w)| == |g| && (BackCloses(HandedOver(g, p, w), p, w) <==> BackCloses(g, p, w))
  {
    hide WellFormed, ChainStop;
    var h := HandedOver(g, p, w);
    HandedOverShape(g, p, w);
    forall x: nat, a: nat | x < |g| && x != w
      ensures Moves(h, w, x, a) <==> Moves(g, w, x, a)
    {
      if g[x].rmw.Some? {
        SameStops(g, h, g[x].rmw.value, w);
      }
    }
    forall a: nat | true
      ensures IsSource(h, p, w, a) <==> IsSource(g, p, w, a)
    {
    }
  }

  lemma SameEdges(g: Graph, h: Graph, p: nat, w: nat)
    requires WellFormed(g) && p < |g| && w < |g| && |h| == |g| && Acyclic(Pairs(g))
    requires forall a: nat, b: nat :: (a, b) in Pairs(g) && b != p ==> (a, b) in Pairs(h)
    requires forall a: nat, b: nat :: (a, b) in Pairs(h) ==> (a, b) in Pairs(g) || b == w
    ensures forall y :: y in g[p].edges && y != w ==> (y in g[w].edges <==> y in h[w].edges)
  {
    forall y | y in g[p].edges && y != w
      ensures y in g[w].edges <==> y in h[w].edges
    {
      assert (p, y) in Pairs(g);
      Irreflexive(g, p);
      assert y in g[w].edges <==> (w, y) in Pairs(g);
      assert y in h[w].edges <==> (w, y) in Pairs(h);
    }
  }

  // ----- where the edges are covered -----

  lemma {:induction false} StopOnChain(g: Graph, r: nat, to: nat, n: nat)
    requires StopsIn(g, r, to, n)
    ensures OnChain(g, r, ChainStop(g, r, to))
    decreases n
  {
    ChainStopStep(g, r, to);
    OnChainStep(g, r, ChainStop(g, r, to));
    if r != to && g[r].rmw.Some? {
      StopOnChain(g, g[r].rmw.value, to, n - 1);
    }
  }

  /** The end of a chain behind a write before p has its own edge to p. */
  lemma SourceBefore(g: Graph, p: nat, w: nat, x: nat, a: nat)
    requires p < |g| && NoReader(g, p) && x < |g| && (x, p) in Pairs(g) && CoveredAt(g, x, p)
    requires Moves(g, w, x, a) && (g[x].rmw.Some? ==> Stops(g, g[x].rmw.value, w))
    ensures (a, p) in Pairs(g)
  {
    if a != x {
      var r := g[x].rmw.value;
      var n: nat :| StopsIn(g, r, p, n);
      OnChainAway(g, r, p, n);
      var k: nat :| StopsIn(g, r, w, k);
      StopOnChain(g, r, w, k);
      EndUnique(g, r, p, a, n);
    }
  }

  /** Where the edges are covered, moving the back edges closes no cycle. */
  lemma CoveredOpens(s: State, p: nat, w: nat, rank: seq<nat>)
    requires Mergeable(s, p, w, rank) && Circular(s.g, p, w) && Covered(s.g)
    ensures !BackCloses(s.g, p, w)
  {
    hide WellFormed, Reach, Stops, Acyclic, OnChain, CoveredAt, Moves;
    var g := s.g;
    NotBack(g, p, w);
    forall a: nat | IsSource(g, p, w, a)
      ensures !Reach(Pairs(g), w, a)
    {
      var x :| x in g[p].back && x != w && x < |g| && Moves(g, w, x, a);
      BackPair(g, p, x);
      assert CoveredAt(g, x, p);
      ReadersInRange(g);
      if g[x].rmw.Some? {
        RankedStops(g, rank, g[x].rmw.value, w);
      }
      SourceBefore(g, p, w, x, a);
      if Reach(Pairs(g), w, a) {
        ReachPair(Pairs(g), a, p);
        ReachTrans(Pairs(g), w, a, p);
      }
    }
  }

  lemma BackPair(g: Graph, p: nat, x: nat)
    requires WellFormed(g) && p < |g| && x in g[p].back
    ensures x < |g| && (x, p) in Pairs(g)
  {
    assert NodeList(|g|, g[p].back);
  }

  /** A covered edge of p leads to the chain of its reader, or the end of the chain has it. */
  lemma CoveredEdge(g: Graph, p: nat, w: nat, y: nat)
    requires p < |g| && Circular(g, p, w) && (p, y) in Pairs(g) && Covered(g)
    ensures OnChain(g, g[p].rmw.value, y) || y in g[w].edges
  {
    hide WellFormed;
    var r := g[p].rmw.value;
    assert CoveredAt(g, p, y);
    if !OnChain(g, r, y) {
      var n: nat :| StopsIn(g, r, y, n);
      EndUnique(g, r, y, w, n);
    }
  }

  /**
   * Where the edges are covered, merging into the end of the chain of p's reader ends; it succeeds if that is the
   * reader itself, and it fails further down.
   */
  lemma CoveredOutcome(s: State, p: nat, w: nat, rank: seq<nat>)
    requires Mergeable(s, p, w, rank) && Circular(s.g, p, w) && Covered(s.g)
    ensures Merge(s, p, w).Done? && (Merge(s, p, w).ok <==> s.g[p].rmw == Some(w))
  {
    hide WellFormed, Reach, Stops, Acyclic, OnChain, Covered, BackCloses, Merge, Ranked;
    var g := s.g;
    var r := g[p].rmw.value;
    CircularOutcome(s, p, w, rank);
    CoveredOpens(s, p, w, rank);
    ReadersInRange(g);
    LastNewIn(g[p].edges, g[w].edges, w);
    match LastNew(g[p].edges, g[w].edges, w)
    case None =>
      assert r in g[p].edges;
      if r != w {
        OnChainStep(g, r, r);
        OnCircle(g, p, w, r);
        ReachMono(OffNode(Pairs(g), p), Pairs(g), r, w);
        CycleThere(Pairs(g), w, r);
      }
    case Some(y) =>
      CoveredEdge(g, p, w, y);
      OnChainStep(g, r, y);
  }

  /**
   * In every state of every run of calls without merges, every merge ends, and one that succeeds leaves what it should.
   * Into a write on the chain of p's reader it succeeds exactly if that is the reader itself, nobody reads from it, and
   * no cycle was known; anywhere further down it fails.
   */
  lemma RunMerges(ts: seq<Tracking>, cs: seq<Call>, i: nat, p: nat, w: nat)
    requires IsRun(ts, cs) && i < |ts|
    requires var g := ts[i].now.s.g; p < |g| && w < |g| && p != w && NoReader(g, p)
    ensures var s := ts[i].now.s;
            && WellFormed(s.g)
            && var m := Merge(s, p, w);
               && m.Done? && (m.ok ==> !m.s.cyclic && Merged(s.g, m.s.g, p, w))
               && (s.g[p].rmw.Some? && OnChain(s.g, s.g[p].rmw.value, w) ==>
                     (m.ok <==> s.g[p].rmw == Some(w) && Unread(s.g, w) && !s.cyclic))
  {
    hide WellFormed, Reach, Stops, Acyclic, OnChain, Covered, Merge, Ranked, IsRun, Merged, Pairs;
    RunGood(ts, cs, i);
    RunCovered(ts, cs, i);
    var now := ts[i].now;
    MergeEnds(now.s, p, w, now.rank);
    MergeMeets(now.s, p, w);
    FlagStaysUp(now.s, p, w);
    ReadersInRange(now.s.g);
    if now.s.g[p].rmw.Some? && OnChain(now.s.g, now.s.g[p].rmw.value, w) {
      if now.s.g[w].rmw.Some? {
        ReaderNotBefore(now.s.g, now.rank, now.s.g[p].rmw.value, w);
      } else if !now.s.cyclic {
        RmwChainEdges(now.s.g, p);
        CoveredOutcome(now.s, p, w, now.rank);
      }
    }
  }

  /** A write on a chain is not read by the node the chain starts from. */
  lemma ReaderNotBefore(g: Graph, rank: seq<nat>, r: nat, w: nat)
    requires Ranked(g, rank) && r < |g| && w < |g| && OnChain(g, r, w)
    ensures g[w].rmw != Some(r)
  {
    var n: nat :| StopsIn(g, r, w, n);
    OnChainLower(g, rank, r, w, n);
  }

  lemma {:induction false} OnChainLower(g: Graph, rank: seq<nat>, r: nat, w: nat, n: nat)
    requires Ranked(g, rank) && r < |g| && w < |g| && StopsIn(g, r, w, n) && OnChain(g, r, w)
    ensures rank[w] <= rank[r]
    decreases n
  {
    OnChainStep(g, r, w);
    if r != w {
      OnChainLower(g, rank, g[r].rmw.value, w, n - 1);
    }
  }

  lemma RmwChainEdges(g: Graph, p: nat)
    requires RmwEdges(g) && p < |g|
    ensures ChainEdges(g, p)
  {
  }

  lemma FlagStaysUp(s: State, p: nat, w: nat)
    requires WellFormed(s.g) && p < |s.g| && w < |s.g| && p != w && NoReader(s.g, p)
    ensures s.cyclic && Merge(s, p, w).Done? ==> !Merge(s, p, w).ok
  {
    hide WellFormed, BackMoves, EdgeMoves;
    if !ReadersClash(s.g, p, w) {
      HandedOverShape(s.g, p, w);
      var t := State(HandedOver(s.g, p, w), s.cyclic);
      BackMovesShape(t, p, w);
      var m := BackMoves(t, p, w);
      if m.Done? && m.ok {
        EdgeMovesShape(m.s, p, w);
      }
    }
  }

  // ----- with the flag up -----

  lemma {:induction false} BackMovesFlagged(s: State, p: nat, w: nat)
    requires WellFormed(s.g) && p < |s.g| && w < |s.g| && p != w && AllStop(s.g, w) && s.cyclic
    ensures var m := BackMoves(s, p, w);
            && m.Done? && (m.ok <==> forall x :: x in s.g[p].back ==> x == w)
            && (m.ok ==> |m.s.g| == |s.g| && m.s.g[p].edges == s.g[p].edges)
    decreases |s.g[p].back|
  {
    hide WellFormed, BackEnds, Stops, Dropped, AddNodeEdge;
    if s.g[p].back != [] {
      MovedBackShape(s, p, w);
      BackTurnEnds(s.g, p, w);
      LastIn(s.g, p);
      PopBackKeeps(s.g, p);
      var t := MovedBack(s, p, w);
      AllStopSame(s.g, t.g, w);
      BackMovesFlagged(t, p, w);
      var y := s.g[p].back[|s.g[p].back| - 1];
      if y == w {
        assert forall x :: x in s.g[p].back <==> x == w || x in t.g[p].back;
      } else {
        assert !BackMoves(s, p, w).ok;
      }
    }
  }

  lemma PopBackKeeps(g: Graph, p: nat)
    requires WellFormed(g) && p < |g| && g[p].back != []
    ensures g[p].back[|g[p].back| - 1] < |g| && |PopBack(g, p)| == |g|
    ensures g[p].back[|g[p].back| - 1] != p ==> PopBack(g, p)[p].edges == g[p].edges
  {
    PopBackDrops(g, p);
  }

  lemma {:induction false} EdgeMovesFlagged(s: State, p: nat, w: nat)
    requires WellFormed(s.g) && p < |s.g| && w < |s.g| && p != w && NoReader(s.g, p) && s.cyclic
    ensures var m := EdgeMoves(s, p, w);
            match LastNew(s.g[p].edges, [], w)
            case None => m.Done?
            case Some(y) => m.Never? <==> !Ends(s.g, w, y)
    decreases |s.g[p].edges|
  {
    hide WellFormed, Stops, AddNodeEdge;
    if s.g[p].edges != [] {
      var y := s.g[p].edges[|s.g[p].edges| - 1];
      MovedEdgeShape(s, p, w);
      PopEdgeDrops(s.g, p);
      var h := PopEdge(s.g, p);
      if y == w {
        EdgeMovesFlagged(MovedEdge(s, p, w), p, w);
        if LastNew(h[p].edges, [], w).Some? {
          PoppedEnds(s.g, h, w, LastNew(h[p].edges, [], w).value);
        }
      } else {
        PoppedEnds(s.g, h, w, y);
      }
    }
  }

  lemma PoppedEnds(g: Graph, h: Graph, w: nat, y: nat)
    requires SameReaders(g, h) && w < |g| && h[w].edges == g[w].edges
    ensures Ends(h, w, y) <==> Ends(g, w, y)
  {
    if g[w].rmw.Some? {
      SameStops(g, h, g[w].rmw.value, y);
    }
  }

  /** With the flag up a merge goes on for ever exactly if no other back edge stops it and the last edge of p strays. */
  lemma FlaggedOutcome(s: State, p: nat, w: nat, rank: seq<nat>)
    requires WellFormed(s.g) && p < |s.g| && w < |s.g| && p != w && NoReader(s.g, p) && Ranked(s.g, rank) && s.cyclic
    ensures var g := s.g;
            Merge(s, p, w).Never? <==>
              && Circular(g, p, w) && (forall x :: x in g[p].back ==> x == w)
              && LastNew(g[p].edges, [], w).Some?
              && var y := LastNew(g[p].edges, [], w).value;
                 y !in g[w].edges && !OnChain(g, g[p].rmw.value, y)
  {
    hide WellFormed, Stops, BackMoves, EdgeMoves, Ranked, OnChain;
    var g := s.g;
    if !Circular(g, p, w) {
      MergeEnds(s, p, w, rank);
    } else {
      var r := g[p].rmw.value;
      var h := HandedOver(g, p, w);
      var t := State(h, true);
      HandedOverShape(g, p, w);
      HandedStops(g, rank, p, w);
      ReadersInRange(g);
      BackMovesFlagged(t, p, w);
      BackMovesShape(t, p, w);
      BackMovesEnd(t, p, w);
      var m := BackMoves(t, p, w);
      if m.ok {
        EdgeMovesFlagged(m.s, p, w);
        LastNewIn(g[p].edges, [], w);
        if LastNew(g[p].edges, [], w).Some? {
          var y := LastNew(g[p].edges, [], w).value;
          NoLoop(m.s.g, p);
          assert y in h[w].edges <==> (w, y) in Pairs(h);
          assert y in m.s.g[w].edges <==> (w, y) in Pairs(m.s.g);
          SameStops(h, m.s.g, r, y);
          CircleExactly(g, w, r, y);
        }
      }
    }
  }
}
