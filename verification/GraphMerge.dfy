/** Merging a promise node into a write node: moving its edges one at a time. */
module GraphMerge {
  import opened Relations
  import opened GraphTheory
  import opened GraphRollback

  // ----- popping an edge from either end -----

  ghost function FlipNode(n: Node): Node {
    Node(n.back, n.edges, n.rmw)
  }

  /** The graph with every edge reversed. */
  ghost function Flip(g: Graph): (h: Graph)
    ensures |h| == |g| && forall i :: 0 <= i < |g| ==> h[i] == FlipNode(g[i])
  {
    seq(|g|, i requires 0 <= i < |g| => FlipNode(g[i]))
  }

  lemma FlipWellFormed(g: Graph)
    requires WellFormed(g)
    ensures WellFormed(Flip(g))
  {
    var h := Flip(g);
    forall a | 0 <= a < |h|
      ensures NodeList(|h|, h[a].edges) && NodeList(|h|, h[a].back)
      ensures h[a].rmw.Some? ==> h[a].rmw.value < |h|
    {
      assert NodeList(|g|, g[a].edges) && NodeList(|g|, g[a].back);
      assert g[a].rmw.Some? ==> g[a].rmw.value < |g|;
    }
    forall a, b | 0 <= a < |h| && 0 <= b < |h|
      ensures b in h[a].edges <==> a in h[b].back
    {
      assert a in g[b].edges <==> b in g[a].back;
    }
  }

  ghost function PopBack(g: Graph, x: nat): Graph
    requires x < |g| && g[x].back != [] && g[x].back[|g[x].back| - 1] < |g|
  {
    var y := g[x].back[|g[x].back| - 1];
    var h := g[x := g[x].(back := g[x].back[..|g[x].back| - 1])];
    h[y := h[y].(edges := Without(h[y].edges, x))]
  }

  lemma PopBackIsFlip(g: Graph, x: nat)
    requires WellFormed(g) && x < |g| && g[x].back != []
    ensures g[x].back[|g[x].back| - 1] < |g|
    ensures PopBack(g, x) == Flip(PopEdge(Flip(g), x))
  {
    assert NodeList(|g|, g[x].back);
    assert Flip(g)[x].edges == g[x].back;
  }

  /** h is g without the edge from a to b; all other lists are kept. */
  ghost predicate Dropped(g: Graph, h: Graph, a: nat, b: nat) {
    && WellFormed(h) && |h| == |g|
    && Pairs(h) == Pairs(g) - {(a, b)}
    && (forall c :: 0 <= c < |g| ==> h[c].rmw == g[c].rmw)
    && (forall c :: 0 <= c < |g| && c != a ==> h[c].edges == g[c].edges)
    && (forall c :: 0 <= c < |g| && c != b ==> h[c].back == g[c].back)
  }

  lemma PopEdgeDrops(g: Graph, x: nat)
    requires WellFormed(g) && x < |g| && g[x].edges != []
    ensures var y := g[x].edges[|g[x].edges| - 1];
            && y < |g| && Dropped(g, PopEdge(g, x), x, y)
            && PopEdge(g, x)[x].edges == g[x].edges[..|g[x].edges| - 1]
  {
    var es := g[x].edges;
    var y := es[|es| - 1];
    PopEdgeShape(g, x);
    PoppedWellFormed(g, PopEdge(g, x), x, y);
    assert NodeList(|g|, es);
    assert es == es[..|es| - 1] + [y] && y !in es[..|es| - 1];
    DropPairs(g, PopEdge(g, x), x, y);
  }

  lemma DropPairs(g: Graph, h: Graph, x: nat, y: nat)
    requires x < |g| && |h| == |g|
    requires forall a :: 0 <= a < |g| && a != x ==> h[a].edges == g[a].edges
    requires forall b :: b in h[x].edges <==> b in g[x].edges && b != y
    ensures Pairs(h) == Pairs(g) - {(x, y)}
  {
    forall a: nat, b: nat
      ensures (a, b) in Pairs(h) <==> (a, b) in Pairs(g) - {(x, y)}
    {
    }
  }

  lemma PopBackDrops(g: Graph, x: nat)
    requires WellFormed(g) && x < |g| && g[x].back != []
    ensures var y := g[x].back[|g[x].back| - 1];
            && y < |g| && Dropped(g, PopBack(g, x), y, x)
            && PopBack(g, x)[x].back == g[x].back[..|g[x].back| - 1]
  {
    var y := g[x].back[|g[x].back| - 1];
    var h := PopBack(g, x);
    FlipWellFormed(g);
    PopBackIsFlip(g, x);
    PopEdgeDrops(Flip(g), x);
    FlipWellFormed(PopEdge(Flip(g), x));
    assert y in g[x].back;
    forall b | true
      ensures b in h[y].edges <==> b in g[y].edges && b != x
    {
      assert NodeList(|g|, g[y].edges);
      WithoutDistinct(|g|, g[y].edges, x);
      if b != x {
        WithoutMember<nat>(g[y].edges, x, b);
      }
    }
    DropPairs(g, h, y, x);
  }

  // ----- the transfer -----

  /** p is a reader of no write. */
  ghost predicate NoReader(g: Graph, p: nat) {
    forall a :: 0 <= a < |g| ==> g[a].rmw != Some(p)
  }

  lemma {:induction false} StopElsewhere(g: Graph, r: nat, to: nat, p: nat, n: nat)
    requires StopsIn(g, r, to, n) && NoReader(g, p) && r != p
    ensures StopIn(g, r, to, n) != p
    decreases n
  {
    if r != to && g[r].rmw.Some? {
      StopElsewhere(g, g[r].rmw.value, to, p, n - 1);
    }
  }

  lemma ChainStopElsewhere(g: Graph, r: nat, to: nat, p: nat)
    requires NoReader(g, p) && r != p
    ensures ChainStop(g, r, to) != p || p == to
  {
    if n: nat :| StopsIn(g, r, to, n) {
      StopsSame(g, r, to, n);
      StopElsewhere(g, r, to, p, n);
    }
  }

  /** An acyclic graph that keeps the pairs of a relation that does not touch p. */
  ghost predicate Merging(g: Graph, p: nat, kept: Rel) {
    && Acyclic(Pairs(g)) && kept <= Pairs(g)
    && forall a, b :: (a, b) in kept ==> a != p && b != p
  }

  /** An edge addition changes one incoming list; outgoing lists only of the write and of a node that is a reader. */
  lemma AddTouches(s: State, from: nat, to: nat, p: nat)
    requires from < |s.g| && to < |s.g| && p < |s.g|
    ensures var t := AddNodeEdge(s, from, to);
            && |t.g| == |s.g| && (p != to ==> t.g[p].back == s.g[p].back)
            && (p != from && NoReader(s.g, p) ==> t.g[p].edges == s.g[p].edges)
  {
    if to !in s.g[from].edges {
      var g1 := PushEdge(s.g, from, to);
      PushEdgeShape(s.g, from, to);
      if g1[from].rmw.Some? {
        var r := g1[from].rmw.value;
        var e := ChainStop(g1, r, to);
        PushEdgeShape(g1, e, to);
        if NoReader(s.g, p) {
          ChainStopElsewhere(g1, r, to, p);
        }
      }
    }
  }

  lemma Irreflexive(g: Graph, a: nat)
    requires Acyclic(Pairs(g))
    ensures (a, a) !in Pairs(g)
  {
    ReachRefl(Pairs(g), a);
  }

  lemma MergingAcyclic(g: Graph, p: nat, kept: Rel)
    requires Merging(g, p, kept)
    ensures Acyclic(Pairs(g))
  {
  }

  lemma MergeDropBack(g: Graph, p: nat, kept: Rel)
    requires WellFormed(g) && p < |g| && Merging(g, p, kept) && g[p].back != []
    ensures var y := g[p].back[|g[p].back| - 1];
            y < |g| && y != p && Merging(PopBack(g, p), p, kept)
  {
    var y := g[p].back[|g[p].back| - 1];
    PopBackDrops(g, p);
    assert y in g[p].back && (y, p) in Pairs(g);
    Irreflexive(g, p);
    AcyclicMono(Pairs(PopBack(g, p)), Pairs(g));
  }

  lemma MergeDropEdge(g: Graph, p: nat, kept: Rel)
    requires WellFormed(g) && p < |g| && Merging(g, p, kept) && g[p].edges != []
    ensures var y := g[p].edges[|g[p].edges| - 1];
            y < |g| && y != p && Merging(PopEdge(g, p), p, kept)
  {
    var y := g[p].edges[|g[p].edges| - 1];
    PopEdgeDrops(g, p);
    assert y in g[p].edges && (p, y) in Pairs(g);
    Irreflexive(g, p);
    AcyclicMono(Pairs(PopEdge(g, p)), Pairs(g));
  }

  /** Adding the moved edge: either a cycle is found or the edge is kept from now on. */
  lemma MergeAdd(s: State, p: nat, kept: Rel, from: nat, to: nat)
    requires WellFormed(s.g) && !s.cyclic && Merging(s.g, p, kept)
    requires from < |s.g| && to < |s.g| && from != p && to != p
    ensures var t := AddNodeEdge(s, from, to); !t.cyclic ==> Merging(t.g, p, kept + {(from, to)})
  {
    AddNodeEdgeShape(s, from, to);
    AddNodeEdgeExact(s, from, to);
  }

  ghost predicate SameReaders(g: Graph, h: Graph) {
    |h| == |g| && forall a :: 0 <= a < |g| ==> h[a].rmw == g[a].rmw
  }

  /** One turn of the loop that moves p's back edges to w. */
  ghost function MovedBack(s: State, p: nat, w: nat): State
    requires WellFormed(s.g) && p < |s.g| && w < |s.g| && s.g[p].back != []
  {
    PopBackDrops(s.g, p);
    var y := s.g[p].back[|s.g[p].back| - 1];
    var t := State(PopBack(s.g, p), s.cyclic);
    if y == w then t else AddNodeEdge(t, y, w)
  }

  /** One turn of the loop that moves p's forward edges to w. */
  ghost function MovedEdge(s: State, p: nat, w: nat): State
    requires WellFormed(s.g) && p < |s.g| && w < |s.g| && s.g[p].edges != []
  {
    PopEdgeDrops(s.g, p);
    var y := s.g[p].edges[|s.g[p].edges| - 1];
    var t := State(PopEdge(s.g, p), s.cyclic);
    if y == w then t else AddNodeEdge(t, w, y)
  }

  /** A turn takes the last entry off p's list and leaves the readers alone. */
  lemma MovedBackShape(s: State, p: nat, w: nat)
    requires WellFormed(s.g) && p < |s.g| && w < |s.g| && p != w && s.g[p].back != []
    ensures var t := MovedBack(s, p, w);
            && WellFormed(t.g) && SameReaders(s.g, t.g) && (s.cyclic ==> t.cyclic)
            && t.g[p].back == s.g[p].back[..|s.g[p].back| - 1]
            && (s.g[p].back[|s.g[p].back| - 1] == w ==> t.cyclic == s.cyclic)
  {
    PopBackDrops(s.g, p);
    var y := s.g[p].back[|s.g[p].back| - 1];
    var t := State(PopBack(s.g, p), s.cyclic);
    if y != w {
      AddNodeEdgeShape(t, y, w);
      AddTouches(t, y, w, p);
    }
  }

  lemma MovedEdgeShape(s: State, p: nat, w: nat)
    requires WellFormed(s.g) && p < |s.g| && w < |s.g| && p != w && NoReader(s.g, p) && s.g[p].edges != []
    ensures var t := MovedEdge(s, p, w);
            && WellFormed(t.g) && SameReaders(s.g, t.g) && (s.cyclic ==> t.cyclic)
            && t.g[p].edges == s.g[p].edges[..|s.g[p].edges| - 1]
            && (s.g[p].edges[|s.g[p].edges| - 1] == w ==> t.cyclic == s.cyclic)
  {
    PopEdgeDrops(s.g, p);
    var y := s.g[p].edges[|s.g[p].edges| - 1];
    var t := State(PopEdge(s.g, p), s.cyclic);
    if y != w {
      AddNodeEdgeShape(t, w, y);
      AddTouches(t, w, y, p);
    }
  }

  /** How a call turned out: where it left the graph and what it returned, or that it goes on for ever. */
  datatype Outcome = Done(s: State, ok: bool) | Never

  /** The turn that moves the last back edge of p comes to an end. */
  ghost predicate BackEnds(g: Graph, p: nat, w: nat)
    requires WellFormed(g) && p < |g| && g[p].back != []
  {
    PopBackDrops(g, p);
    var y := g[p].back[|g[p].back| - 1];
    y == w || Ends(PopBack(g, p), y, w)
  }

  ghost predicate EdgeEnds(g: Graph, p: nat, w: nat)
    requires WellFormed(g) && p < |g| && g[p].edges != []
  {
    PopEdgeDrops(g, p);
    var y := g[p].edges[|g[p].edges| - 1];
    y == w || Ends(PopEdge(g, p), w, y)
  }

  /** The loop over the back edges, which returns once a cycle is known. */
  ghost function BackMoves(s: State, p: nat, w: nat): Outcome
    requires WellFormed(s.g) && p < |s.g| && w < |s.g| && p != w
    decreases |s.g[p].back|
  {
    if s.g[p].back == [] then Done(s, true)
    else if !BackEnds(s.g, p, w) then Never
    else
      MovedBackShape(s, p, w);
      var t := MovedBack(s, p, w);
      if s.g[p].back[|s.g[p].back| - 1] != w && t.cyclic then Done(t, false) else BackMoves(t, p, w)
  }

  ghost function EdgeMoves(s: State, p: nat, w: nat): Outcome
    requires WellFormed(s.g) && p < |s.g| && w < |s.g| && p != w && NoReader(s.g, p)
    decreases |s.g[p].edges|
  {
    if s.g[p].edges == [] then Done(s, true)
    else if !EdgeEnds(s.g, p, w) then Never
    else
      MovedEdgeShape(s, p, w);
      var t := MovedEdge(s, p, w);
      if s.g[p].edges[|s.g[p].edges| - 1] != w && t.cyclic then Done(t, false) else EdgeMoves(t, p, w)
  }

  lemma {:induction false} BackMovesShape(s: State, p: nat, w: nat)
    requires WellFormed(s.g) && p < |s.g| && w < |s.g| && p != w
    ensures var m := BackMoves(s, p, w);
            m.Done? ==>
              && WellFormed(m.s.g) && SameReaders(s.g, m.s.g) && (s.cyclic ==> m.s.cyclic)
              && (if m.ok then m.s.g[p].back == [] && m.s.cyclic == s.cyclic else m.s.cyclic)
    decreases |s.g[p].back|
  {
    hide WellFormed, MovedBack, BackEnds;
    if s.g[p].back != [] {
      MovedBackShape(s, p, w);
      BackMovesShape(MovedBack(s, p, w), p, w);
    }
  }

  lemma {:induction false} EdgeMovesShape(s: State, p: nat, w: nat)
    requires WellFormed(s.g) && p < |s.g| && w < |s.g| && p != w && NoReader(s.g, p)
    ensures var m := EdgeMoves(s, p, w);
            m.Done? ==>
              && WellFormed(m.s.g) && SameReaders(s.g, m.s.g) && (s.cyclic ==> m.s.cyclic)
              && (if m.ok then m.s.g[p].edges == [] && m.s.cyclic == s.cyclic else m.s.cyclic)
    decreases |s.g[p].edges|
  {
    hide WellFormed, MovedEdge, EdgeEnds;
    if s.g[p].edges != [] {
      MovedEdgeShape(s, p, w);
      EdgeMovesShape(MovedEdge(s, p, w), p, w);
    }
  }

  /** Both loops, the edges after the back edges. */
  ghost function AllMoves(s: State, p: nat, w: nat): Outcome
    requires WellFormed(s.g) && p < |s.g| && w < |s.g| && p != w && NoReader(s.g, p)
  {
    BackMovesShape(s, p, w);
    var m := BackMoves(s, p, w);
    if m.Never? || !m.ok then m
    else
      var n := EdgeMoves(m.s, p, w);
      if n.Never? then n else Done(n.s, n.ok && !n.s.cyclic)
  }

  ghost predicate ReadersClash(g: Graph, p: nat, w: nat)
    requires p < |g| && w < |g|
  {
    g[p].rmw.Some? && g[w].rmw.Some? && g[p].rmw != g[w].rmw
  }

  /** The graph once w has p's reader. */
  ghost function HandedOver(g: Graph, p: nat, w: nat): Graph
    requires p < |g| && w < |g|
  {
    if g[p].rmw.Some? then Attached(g, w, g[p].rmw.value) else g
  }

  /** Merging p into w: false at once if the two have different readers. */
  ghost function Merge(s: State, p: nat, w: nat): Outcome
    requires WellFormed(s.g) && p < |s.g| && w < |s.g| && p != w && NoReader(s.g, p)
  {
    if ReadersClash(s.g, p, w) then Done(s, false)
    else
      HandedOverShape(s.g, p, w);
      AllMoves(State(HandedOver(s.g, p, w), s.cyclic), p, w)
  }

  lemma HandedOverShape(g: Graph, p: nat, w: nat)
    requires WellFormed(g) && p < |g| && w < |g|
    ensures var h := HandedOver(g, p, w);
            && WellFormed(h) && |h| == |g| && Pairs(h) == Pairs(g) && (NoReader(g, p) ==> NoReader(h, p))
            && forall a :: 0 <= a < |g| ==> h[a].edges == g[a].edges && h[a].back == g[a].back
  {
    if g[p].rmw.Some? && g[w].rmw.None? {
      SetRmwFacts(g, w, g[p].rmw.value);
    }
  }

  /** Every back edge of p in g0 is still there, or came from w, or is kept at w; p's forward edges stand. */
  ghost predicate BackMoved(g0: Graph, g: Graph, p: nat, w: nat, kept: Rel)
    requires p < |g0| && |g| == |g0|
  {
    && g[p].edges == g0[p].edges
    && forall x :: x in g0[p].back ==> x in g[p].back || x == w || (x, w) in kept
  }

  ghost predicate EdgesMoved(g0: Graph, g: Graph, p: nat, w: nat, kept: Rel)
    requires p < |g0| && |g| == |g0|
  {
    && g[p].back == g0[p].back
    && forall y :: y in g0[p].edges ==> y in g[p].edges || y == w || (w, y) in kept
  }

  /** From each write to its reader. */
  ghost function Readers(g: Graph): Rel {
    set a: nat | a < |g| && g[a].rmw.Some? :: (a, g[a].rmw.value)
  }

  /** The pair (f, b) replaces one of p's: w has taken p's place in it. */
  ghost predicate Replaces(g: Graph, p: nat, w: nat, f: nat, b: nat)
    requires p < |g|
  {
    (b == w && f in g[p].back && f != w) || (f == w && b in g[p].edges && b != w)
  }

  /** A pair that comes from one of p's: itself with w for p, or from a reader behind it. */
  ghost predicate Redirected(g: Graph, p: nat, w: nat, a: nat, b: nat)
    requires p < |g|
  {
    exists f: nat :: Replaces(g, p, w, f, b) && Reach(Readers(g), f, a)
  }

  /** Nothing is in the graph that was not there or comes from p's pairs. */
  ghost predicate Bound(g1: Graph, g: Graph, p: nat, w: nat)
    requires p < |g1|
  {
    && SameReaders(g1, g)
    && (forall x :: x in g[p].back ==> x in g1[p].back) && (forall y :: y in g[p].edges ==> y in g1[p].edges)
    && forall a, b {:trigger (a, b) in Pairs(g)} ::
         (a, b) in Pairs(g) ==> (a, b) in Pairs(g1) || Redirected(g1, p, w, a, b)
  }

  lemma {:induction false} WalkInReaders(g: Graph, r: nat, to: nat, n: nat)
    requires StopsIn(g, r, to, n)
    ensures Reach(Readers(g), r, StopIn(g, r, to, n))
    decreases n
  {
    ReachRefl(Readers(g), r);
    if r != to && g[r].rmw.Some? {
      var x := g[r].rmw.value;
      WalkInReaders(g, x, to, n - 1);
      assert (r, x) in Readers(g);
      ReachPair(Readers(g), r, x);
      ReachTrans(Readers(g), r, x, StopIn(g, r, to, n));
    }
  }

  lemma ChainInReaders(g: Graph, r: nat, to: nat)
    requires ChainStop(g, r, to) != to
    ensures Reach(Readers(g), r, ChainStop(g, r, to))
  {
    var n: nat :| StopsIn(g, r, to, n);
    StopsSame(g, r, to, n);
    WalkInReaders(g, r, to, n);
  }

  lemma SameReadersRel(g: Graph, h: Graph)
    requires SameReaders(g, h)
    ensures Readers(g) == Readers(h)
  {
  }

  /** The edge of a moved pair, and the one behind it, stay within the bound. */
  lemma AddBound(g1: Graph, s: State, p: nat, w: nat, from: nat, to: nat)
    requires p < |g1| && Bound(g1, s.g, p, w) && WellFormed(s.g) && NoReader(s.g, p)
    requires from < |s.g| && to < |s.g| && from != p && to != p && Replaces(g1, p, w, from, to)
    ensures Bound(g1, AddNodeEdge(s, from, to).g, p, w)
  {
    hide WellFormed, Pairs, PushEdge, Pushed;
    var t := AddNodeEdge(s, from, to);
    AddNodeEdgeShape(s, from, to);
    AddTouches(s, from, to, p);
    ReachRefl(Readers(g1), from);
    if to !in s.g[from].edges {
      var e := AddNodeEdgePairs(s, from, to);
      if s.g[from].rmw.Some? {
        var h, r := PushEdge(s.g, from, to), s.g[from].rmw.value;
        PushEdgeShape(s.g, from, to);
        if e != to {
          ChainInReaders(h, r, to);
        }
        SameReadersRel(g1, h);
        assert (from, r) in Readers(g1);
        ReachPair(Readers(g1), from, r);
        if e != to {
          ReachTrans(Readers(g1), from, r, e);
        }
      }
      forall a, b | (a, b) in Pairs(t.g)
        ensures (a, b) in Pairs(g1) || Redirected(g1, p, w, a, b)
      {
        if (a, b) !in Pairs(s.g) {
          assert b == to && Reach(Readers(g1), from, a);
        }
      }
    }
  }

  lemma DropBound(g1: Graph, g: Graph, h: Graph, p: nat, w: nat, a: nat, b: nat)
    requires p < |g1| && Bound(g1, g, p, w) && Dropped(g, h, a, b) && p < |g|
    requires (forall x :: x in h[p].back ==> x in g[p].back) && (forall y :: y in h[p].edges ==> y in g[p].edges)
    ensures Bound(g1, h, p, w)
  {
  }

  lemma MovedBackBound(g1: Graph, s: State, p: nat, w: nat)
    requires WellFormed(s.g) && p < |s.g| && w < |s.g| && s.g[p].back != [] && p != w
             && NoReader(s.g, p)
    requires Acyclic(Pairs(s.g)) && p < |g1| && Bound(g1, s.g, p, w)
    ensures Bound(g1, MovedBack(s, p, w).g, p, w)
  {
    hide AddNodeEdge, Bound;
    PopBackDrops(s.g, p);
    var y := s.g[p].back[|s.g[p].back| - 1];
    var h := PopBack(s.g, p);
    assert y in s.g[p].back && (y, p) in Pairs(s.g);
    Irreflexive(s.g, p);
    SplitLast(s.g[p].back);
    DropBound(g1, s.g, h, p, w, y, p);
    if y != w {
      BoundBack(g1, s.g, p, w, y);
      AddBound(g1, State(h, s.cyclic), p, w, y, w);
    }
  }

  lemma BoundBack(g1: Graph, g: Graph, p: nat, w: nat, y: nat)
    requires p < |g1| && Bound(g1, g, p, w) && p < |g| && y != w
    ensures y in g[p].back ==> Replaces(g1, p, w, y, w)
    ensures y in g[p].edges ==> Replaces(g1, p, w, w, y)
  {
  }

  lemma MovedEdgeBound(g1: Graph, s: State, p: nat, w: nat)
    requires WellFormed(s.g) && p < |s.g| && w < |s.g| && s.g[p].edges != [] && p != w
             && NoReader(s.g, p)
    requires Acyclic(Pairs(s.g)) && p < |g1| && Bound(g1, s.g, p, w)
    ensures Bound(g1, MovedEdge(s, p, w).g, p, w)
  {
    hide AddNodeEdge, Bound;
    PopEdgeDrops(s.g, p);
    var y := s.g[p].edges[|s.g[p].edges| - 1];
    var h := PopEdge(s.g, p);
    assert y in s.g[p].edges && (p, y) in Pairs(s.g);
    Irreflexive(s.g, p);
    SplitLast(s.g[p].edges);
    DropBound(g1, s.g, h, p, w, p, y);
    if y != w {
      BoundBack(g1, s.g, p, w, y);
      AddBound(g1, State(h, s.cyclic), p, w, w, y);
    }
  }

  lemma SplitLast(s: seq<nat>)
    requires s != []
    ensures forall x :: x in s <==> x == s[|s| - 1] || x in s[..|s| - 1]
  {
    assert s == s[..|s| - 1] + [s[|s| - 1]];
  }

  /** While no cycle shows up, a turn shortens p's list by its last entry and keeps that pair at w. */
  lemma MovedBackKeeps(s: State, p: nat, w: nat, kept: Rel) returns (kept': Rel)
    requires WellFormed(s.g) && p < |s.g| && w < |s.g| && s.g[p].back != []
    requires p != w && NoReader(s.g, p) && !s.cyclic && Merging(s.g, p, kept)
    ensures var t := MovedBack(s, p, w);
            var y := s.g[p].back[|s.g[p].back| - 1];
            && kept <= kept' && (y == w || (y, w) in kept')
            && (!t.cyclic ==> Merging(t.g, p, kept'))
            && |t.g| == |s.g| && t.g[p].back == s.g[p].back[..|s.g[p].back| - 1] && t.g[p].edges == s.g[p].edges
  {
    hide AddNodeEdge;
    PopBackDrops(s.g, p);
    MergeDropBack(s.g, p, kept);
    var y := s.g[p].back[|s.g[p].back| - 1];
    var h := PopBack(s.g, p);
    kept' := kept;
    if y != w {
      kept' := kept + {(y, w)};
      MergeAdd(State(h, false), p, kept, y, w);
      AddTouches(State(h, false), y, w, p);
    }
  }

  lemma MovedEdgeKeeps(s: State, p: nat, w: nat, kept: Rel) returns (kept': Rel)
    requires WellFormed(s.g) && p < |s.g| && w < |s.g| && s.g[p].edges != []
    requires p != w && NoReader(s.g, p) && !s.cyclic && Merging(s.g, p, kept)
    ensures var t := MovedEdge(s, p, w);
            var y := s.g[p].edges[|s.g[p].edges| - 1];
            && kept <= kept' && (y == w || (w, y) in kept')
            && (!t.cyclic ==> Merging(t.g, p, kept'))
            && |t.g| == |s.g| && t.g[p].edges == s.g[p].edges[..|s.g[p].edges| - 1] && t.g[p].back == s.g[p].back
  {
    hide AddNodeEdge;
    PopEdgeDrops(s.g, p);
    MergeDropEdge(s.g, p, kept);
    var y := s.g[p].edges[|s.g[p].edges| - 1];
    var h := PopEdge(s.g, p);
    kept' := kept;
    if y != w {
      kept' := kept + {(w, y)};
      MergeAdd(State(h, false), p, kept, w, y);
      AddTouches(State(h, false), w, y, p);
    }
  }

  // ----- the merge as a whole -----

  ghost function OffNode(rel: Rel, p: nat): Rel {
    set e | e in rel && e.0 != p && e.1 != p
  }

  /**
   * What a successful merge leaves: p has no edges, its former edges are edges of w except those
   * between the two, all other edges are kept, w has p's reader, and there is no cycle. Every edge
   * was there before, or is one of p's with w in its place, or leads there from a reader behind it.
   */
  ghost predicate Merged(g0: Graph, g: Graph, p: nat, w: nat)
    requires p < |g0| && w < |g0|
  {
    && |g| == |g0| && WellFormed(g) && Acyclic(Pairs(g))
    && g[p].edges == [] && g[p].back == []
    && (forall x :: x in g0[p].back && x != w ==> (x, w) in Pairs(g))
    && (forall y :: y in g0[p].edges && y != w ==> (w, y) in Pairs(g))
    && OffNode(Pairs(g0), p) <= Pairs(g)
    && (forall a, b {:trigger (a, b) in Pairs(g)} :: (a, b) in Pairs(g) ==>
          (a, b) in OffNode(Pairs(g0), p) || exists f: nat :: Replaces(g0, p, w, f, b) && Reach(Readers(g), f, a))
    && (forall a :: 0 <= a < |g0| && a != w ==> g[a].rmw == g0[a].rmw)
    && g[w].rmw == (if g0[p].rmw.Some? then g0[p].rmw else g0[w].rmw)
  }

  lemma StartMerging(g0: Graph, g1: Graph, p: nat, w: nat)
    requires p < |g0| && w < |g0| && NoReader(g0, p) && WellFormed(g0)
    requires g1 == HandedOver(g0, p, w)
    ensures Acyclic(Pairs(g0)) ==> Merging(g1, p, OffNode(Pairs(g0), p))
    ensures NoReader(g1, p) && Bound(g1, g1, p, w)
  {
    HandedOverShape(g0, p, w);
  }

  /** p's edges have all been moved, the start relation is kept, and there is no cycle. */
  ghost predicate Moved(g1: Graph, g: Graph, p: nat, w: nat, start: Rel)
    requires p < |g1|
  {
    && |g| == |g1| && Acyclic(Pairs(g)) && start <= Pairs(g)
    && g[p].edges == [] && g[p].back == []
    && (forall x :: x in g1[p].back && x != w ==> (x, w) in Pairs(g))
    && (forall y :: y in g1[p].edges && y != w ==> (w, y) in Pairs(g))
    && Bound(g1, g, p, w)
  }

  lemma MovedBoth(g1: Graph, g2: Graph, g3: Graph, p: nat, w: nat, start: Rel, kept2: Rel, kept: Rel)
    requires p < |g1| && |g1| == |g2| == |g3|
    requires BackMoved(g1, g2, p, w, kept2) && g2[p].back == [] && start <= kept2
    requires EdgesMoved(g2, g3, p, w, kept) && g3[p].edges == [] && kept2 <= kept && Merging(g3, p, kept)
    requires Bound(g1, g3, p, w)
    ensures Moved(g1, g3, p, w, start)
  {
  }

  lemma EndMerging(g0: Graph, g1: Graph, g: Graph, p: nat, w: nat)
    requires p < |g0| && w < |g0| && p != w
    requires g1 == HandedOver(g0, p, w)
    requires !ReadersClash(g0, p, w) && SameReaders(g1, g) && WellFormed(g0) && WellFormed(g)
    requires Moved(g1, g, p, w, OffNode(Pairs(g0), p))
    ensures Merged(g0, g, p, w)
  {
    HandedOverShape(g0, p, w);
    SameReadersRel(g1, g);
    forall a, b | (a, b) in Pairs(g)
      ensures (a, b) in OffNode(Pairs(g0), p) || exists f: nat :: Replaces(g0, p, w, f, b) && Reach(Readers(g), f, a)
    {
      NotAt(g, p, a, b);
      if (a, b) !in Pairs(g1) {
        var f: nat :| Replaces(g1, p, w, f, b) && Reach(Readers(g1), f, a);
        assert Replaces(g0, p, w, f, b);
      }
    }
  }

  lemma NotAt(g: Graph, p: nat, a: nat, b: nat)
    requires p < |g| && WellFormed(g) && g[p].edges == [] && g[p].back == [] && (a, b) in Pairs(g)
    ensures a != p && b != p
  {
    assert b in g[a].edges && b < |g| by {
      assert NodeList(|g|, g[a].edges);
    }
    assert a in g[b].back;
  }

  /** As long as no cycle is known, the loop keeps a given relation, adds p's pairs to it, and nothing else. */
  lemma {:induction false} BackMovesKeep(g1: Graph, s: State, p: nat, w: nat, kept: Rel) returns (kept': Rel)
    requires WellFormed(s.g) && p < |s.g| && w < |s.g| && p != w && NoReader(s.g, p)
    requires !s.cyclic && Merging(s.g, p, kept) && p < |g1| && Bound(g1, s.g, p, w)
    ensures var m := BackMoves(s, p, w);
            m.Done? && !m.s.cyclic ==>
              && m.ok && |m.s.g| == |s.g| && m.s.g[p].back == []
              && kept <= kept' && Merging(m.s.g, p, kept') && Bound(g1, m.s.g, p, w)
              && BackMoved(s.g, m.s.g, p, w, kept')
    decreases |s.g[p].back|
  {
    hide WellFormed, MovedBack, BackEnds, Merging, Bound;
    kept' := kept;
    BackMovesShape(s, p, w);
    if s.g[p].back != [] {
      MovedBackShape(s, p, w);
      MergingAcyclic(s.g, p, kept);
      MovedBackBound(g1, s, p, w);
      var k := MovedBackKeeps(s, p, w, kept);
      var t := MovedBack(s, p, w);
      SplitLast(s.g[p].back);
      BackMovesShape(t, p, w);
      if !t.cyclic {
        kept' := BackMovesKeep(g1, t, p, w, k);
      }
    }
  }

  lemma {:induction false} EdgeMovesKeep(g1: Graph, s: State, p: nat, w: nat, kept: Rel) returns (kept': Rel)
    requires WellFormed(s.g) && p < |s.g| && w < |s.g| && p != w && NoReader(s.g, p)
    requires !s.cyclic && Merging(s.g, p, kept) && p < |g1| && Bound(g1, s.g, p, w)
    ensures var m := EdgeMoves(s, p, w);
            m.Done? && !m.s.cyclic ==>
              && m.ok && |m.s.g| == |s.g| && m.s.g[p].edges == []
              && kept <= kept' && Merging(m.s.g, p, kept') && Bound(g1, m.s.g, p, w)
              && EdgesMoved(s.g, m.s.g, p, w, kept')
    decreases |s.g[p].edges|
  {
    hide WellFormed, MovedEdge, EdgeEnds, Merging, Bound;
    kept' := kept;
    EdgeMovesShape(s, p, w);
    if s.g[p].edges != [] {
      MovedEdgeShape(s, p, w);
      MergingAcyclic(s.g, p, kept);
      MovedEdgeBound(g1, s, p, w);
      var k := MovedEdgeKeeps(s, p, w, kept);
      var t := MovedEdge(s, p, w);
      SplitLast(s.g[p].edges);
      EdgeMovesShape(t, p, w);
      if !t.cyclic {
        kept' := EdgeMovesKeep(g1, t, p, w, k);
      }
    }
  }

  lemma AllMovesKeep(s: State, p: nat, w: nat, start: Rel)
    requires WellFormed(s.g) && p < |s.g| && w < |s.g| && p != w && NoReader(s.g, p)
    requires !s.cyclic ==> Merging(s.g, p, start) && Bound(s.g, s.g, p, w)
    ensures var m := AllMoves(s, p, w);
            m.Done? ==>
              && WellFormed(m.s.g) && SameReaders(s.g, m.s.g) && m.ok == !m.s.cyclic
              && (m.ok ==> Moved(s.g, m.s.g, p, w, start))
  {
    hide WellFormed, Merging, Bound, BackMoves, EdgeMoves, BackMoved, EdgesMoved;
    BackMovesShape(s, p, w);
    var m := BackMoves(s, p, w);
    if m.Done? && m.ok {
      EdgeMovesShape(m.s, p, w);
      var n := EdgeMoves(m.s, p, w);
      if n.Done? && !n.s.cyclic {
        var kept := BackMovesKeep(s.g, s, p, w, start);
        var kept' := EdgeMovesKeep(s.g, m.s, p, w, kept);
        MovedBoth(s.g, m.s.g, n.s.g, p, w, start, kept, kept');
      }
    }
  }

  /**
   * A merge that ends succeeds exactly if the flag is down then and the readers agree, and it leaves what it should.
   */
  lemma MergeMeets(s: State, p: nat, w: nat)
    requires WellFormed(s.g) && p < |s.g| && w < |s.g| && p != w && NoReader(s.g, p)
    requires !s.cyclic ==> Acyclic(Pairs(s.g))
    ensures var m := Merge(s, p, w);
            m.Done? ==>
              && WellFormed(m.s.g) && |m.s.g| == |s.g|
              && (m.ok <==> !m.s.cyclic && !ReadersClash(s.g, p, w)) && (m.ok ==> Merged(s.g, m.s.g, p, w))
  {
    hide WellFormed, Merging, Bound, AllMoves, Moved, Merged;
    if !ReadersClash(s.g, p, w) {
      var g1 := HandedOver(s.g, p, w);
      HandedOverShape(s.g, p, w);
      StartMerging(s.g, g1, p, w);
      var t := State(g1, s.cyclic);
      AllMovesKeep(t, p, w, OffNode(Pairs(s.g), p));
      var m := AllMoves(t, p, w);
      if m.Done? && m.ok {
        EndMerging(s.g, g1, m.s.g, p, w);
      }
    }
  }
}
