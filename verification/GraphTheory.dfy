/**
 * The modification-order graph on values: what one call of the graph does to the nodes,
 * and why its cycle flag decides whether a modification order exists.
 */
module GraphTheory {
  import opened Relations

  datatype Option<+T> = None | Some(value: T)

  /** Outgoing edges, incoming edges, and the read-modify-write that reads from this write. */
  datatype Node = Node(edges: seq<nat>, back: seq<nat>, rmw: Option<nat>)

  type Graph = seq<Node>

  const EMPTY_NODE := Node([], [], None)

  ghost predicate InRange(g: Graph, s: seq<nat>) {
    forall i :: 0 <= i < |s| ==> s[i] < |g|
  }

  /** A list of node numbers without repetition. */
  ghost predicate NodeList(n: nat, s: seq<nat>) {
    Distinct(s) && forall i :: 0 <= i < |s| ==> s[i] < n
  }

  /** Forward and back lists mirror each other. */
  ghost predicate Mirrored(g: Graph) {
    forall a, b {:trigger b in g[a].edges} {:trigger a in g[b].back} ::
      0 <= a < |g| && 0 <= b < |g| ==> (b in g[a].edges <==> a in g[b].back)
  }

  ghost predicate WellFormed(g: Graph) {
    && (forall a {:trigger g[a].edges} :: 0 <= a < |g| ==> NodeList(|g|, g[a].edges))
    && (forall a {:trigger g[a].back} :: 0 <= a < |g| ==> NodeList(|g|, g[a].back))
    && Mirrored(g)
    && (forall a {:trigger g[a].rmw} :: 0 <= a < |g| && g[a].rmw.Some? ==> g[a].rmw.value < |g|)
  }

  ghost function Pairs(g: Graph): Rel {
    set a: nat, b: nat | a < |g| && b in g[a].edges :: (a, b)
  }

  /** A height for every node that goes down along read-modify-write chains. */
  ghost predicate Ranked(g: Graph, rank: seq<nat>) {
    && |rank| == |g|
    && forall a :: 0 <= a < |g| && g[a].rmw.Some? ==>
         g[a].rmw.value < |g| && rank[g[a].rmw.value] < rank[a]
  }

  // ----- one edge -----

  function PushEdge(g: Graph, a: nat, b: nat): (g': Graph)
    requires a < |g| && b < |g|
  {
    if b in g[a].edges then g
    else
      var h := g[a := g[a].(edges := g[a].edges + [b])];
      h[b := h[b].(back := h[b].back + [a])]
  }

  /** h is g with the edge from a to b appended to both lists, unless it is there already. */
  ghost predicate Pushed(g: Graph, h: Graph, a: nat, b: nat)
    requires a < |g| && b < |g|
  {
    && |h| == |g|
    && (forall x :: 0 <= x < |g| ==> h[x].rmw == g[x].rmw)
    && (forall x :: 0 <= x < |g| && x != a ==> h[x].edges == g[x].edges)
    && (forall x :: 0 <= x < |g| && x != b ==> h[x].back == g[x].back)
    && h[a].edges == (if b in g[a].edges then g[a].edges else g[a].edges + [b])
    && h[b].back == (if b in g[a].edges then g[b].back else g[b].back + [a])
  }

  lemma PushEdgeShape(g: Graph, a: nat, b: nat)
    requires a < |g| && b < |g|
    ensures Pushed(g, PushEdge(g, a, b), a, b)
  {
  }

  lemma PushEdgeWellFormed(g: Graph, a: nat, b: nat)
    requires WellFormed(g) && a < |g| && b < |g|
    ensures WellFormed(PushEdge(g, a, b))
  {
    PushEdgeShape(g, a, b);
    PushedWellFormed(g, PushEdge(g, a, b), a, b);
  }

  lemma AppendDistinct(n: nat, s: seq<nat>, x: nat)
    requires NodeList(n, s) && x < n && x !in s
    ensures NodeList(n, s + [x])
  {
  }

  lemma PushedWellFormed(g: Graph, h: Graph, a: nat, b: nat)
    requires WellFormed(g) && a < |g| && b < |g| && Pushed(g, h, a, b)
    ensures WellFormed(h)
  {
    if b !in g[a].edges {
      AppendDistinct(|g|, g[a].edges, b);
      AppendDistinct(|g|, g[b].back, a);
    }
    PushedMirrored(g, h, a, b);
  }

  lemma PushedMirrored(g: Graph, h: Graph, a: nat, b: nat)
    requires Mirrored(g) && a < |g| && b < |g| && Pushed(g, h, a, b)
    ensures Mirrored(h)
  {
    forall x, y | 0 <= x < |h| && 0 <= y < |h|
      ensures y in h[x].edges <==> x in h[y].back
    {
      assert y in g[x].edges <==> x in g[y].back;
    }
  }

  lemma PushEdgePairs(g: Graph, a: nat, b: nat)
    requires a < |g| && b < |g|
    ensures Pairs(PushEdge(g, a, b)) == Pairs(g) + {(a, b)}
  {
    PushEdgeShape(g, a, b);
    var g' := PushEdge(g, a, b);
    forall x: nat, y: nat
      ensures (x, y) in Pairs(g') <==> (x, y) in Pairs(g) + {(a, b)}
    {
    }
  }

  // ----- the walk along a chain of read-modify-writes -----

  /** Within n steps along the readers the walk meets the target or a node that nobody reads from. */
  ghost predicate StopsIn(g: Graph, r: nat, to: nat, n: nat)
    decreases n
  {
    r < |g| && (r == to || g[r].rmw.None? || (n > 0 && StopsIn(g, g[r].rmw.value, to, n - 1)))
  }

  ghost predicate Stops(g: Graph, r: nat, to: nat) {
    exists n: nat :: StopsIn(g, r, to, n)
  }

  ghost function StopIn(g: Graph, r: nat, to: nat, n: nat): (e: nat)
    requires StopsIn(g, r, to, n)
    ensures e == to || Unread(g, e)
    decreases n
  {
    if r == to || g[r].rmw.None? then r else StopIn(g, g[r].rmw.value, to, n - 1)
  }

  /** The node where the walk from r towards the target stops; of no meaning for a walk that never stops. */
  ghost function ChainStop(g: Graph, r: nat, to: nat): (e: nat)
    ensures e == to || Unread(g, e)
  {
    if r != to && Stops(g, r, to) then
      var n: nat :| StopsIn(g, r, to, n);
      StopIn(g, r, to, n)
    else to
  }

  lemma {:induction false} StopsInMore(g: Graph, r: nat, to: nat, n: nat, m: nat)
    requires StopsIn(g, r, to, n) && n <= m
    ensures StopsIn(g, r, to, m) && StopIn(g, r, to, m) == StopIn(g, r, to, n)
    decreases n
  {
    if r != to && g[r].rmw.Some? {
      StopsInMore(g, g[r].rmw.value, to, n - 1, m - 1);
    }
  }

  lemma StopsSame(g: Graph, r: nat, to: nat, n: nat)
    requires StopsIn(g, r, to, n)
    ensures ChainStop(g, r, to) == StopIn(g, r, to, n)
  {
    if r != to {
      var m: nat :| StopsIn(g, r, to, m) && ChainStop(g, r, to) == StopIn(g, r, to, m);
      if n <= m {
        StopsInMore(g, r, to, n, m);
      } else {
        StopsInMore(g, r, to, m, n);
      }
    }
  }

  /** The walk goes on at the reader. */
  lemma ChainStopStep(g: Graph, r: nat, to: nat)
    requires r < |g|
    ensures if r == to || g[r].rmw.None? then Stops(g, r, to) && ChainStop(g, r, to) == r
            else
              && (Stops(g, r, to) <==> Stops(g, g[r].rmw.value, to))
              && ChainStop(g, r, to) == ChainStop(g, g[r].rmw.value, to)
  {
    if r == to || g[r].rmw.None? {
      assert StopsIn(g, r, to, 0);
      StopsSame(g, r, to, 0);
    } else {
      var x := g[r].rmw.value;
      if n: nat :| StopsIn(g, r, to, n) {
        assert StopsIn(g, x, to, n - 1);
        StopsSame(g, r, to, n);
        StopsSame(g, x, to, n - 1);
      }
      if n: nat :| StopsIn(g, x, to, n) {
        assert StopsIn(g, r, to, n + 1);
      }
    }
  }

  /** Where heights go down along the readers, every walk stops. */
  lemma {:induction false} RankedStops(g: Graph, rank: seq<nat>, r: nat, to: nat)
    requires Ranked(g, rank) && r < |g|
    ensures Stops(g, r, to)
    decreases rank[r]
  {
    ChainStopStep(g, r, to);
    if r != to && g[r].rmw.Some? {
      RankedStops(g, rank, g[r].rmw.value, to);
    }
  }

  /** The walk sees the readers only, and not that of its target. */
  lemma SameStops(g: Graph, h: Graph, r: nat, to: nat)
    requires |h| == |g| && forall a :: 0 <= a < |g| && a != to ==> h[a].rmw == g[a].rmw
    ensures Stops(h, r, to) <==> Stops(g, r, to)
    ensures ChainStop(h, r, to) == ChainStop(g, r, to)
  {
    forall n: nat
      ensures StopsIn(h, r, to, n) <==> StopsIn(g, r, to, n)
      ensures StopsIn(g, r, to, n) ==> StopIn(h, r, to, n) == StopIn(g, r, to, n)
    {
      SameStopsIn(g, h, r, to, n);
    }
    if n: nat :| StopsIn(g, r, to, n) {
      StopsSame(g, r, to, n);
      StopsSame(h, r, to, n);
    }
  }

  lemma {:induction false} SameStopsIn(g: Graph, h: Graph, r: nat, to: nat, n: nat)
    requires |h| == |g| && forall a :: 0 <= a < |g| && a != to ==> h[a].rmw == g[a].rmw
    ensures StopsIn(h, r, to, n) <==> StopsIn(g, r, to, n)
    ensures StopsIn(g, r, to, n) ==> StopIn(h, r, to, n) == StopIn(g, r, to, n)
    decreases n
  {
    if r < |g| && r != to && g[r].rmw.Some? && n > 0 {
      SameStopsIn(g, h, g[r].rmw.value, to, n - 1);
    }
  }

  /** Adding the edge comes to an end: the edge is there already, or the walk behind the write stops. */
  ghost predicate Ends(g: Graph, from: nat, to: nat) {
    from < |g| && (to in g[from].edges || g[from].rmw.None? || Stops(g, g[from].rmw.value, to))
  }

  lemma RankedEnds(g: Graph, rank: seq<nat>, from: nat, to: nat)
    requires Ranked(g, rank) && from < |g|
    ensures Ends(g, from, to)
  {
    if g[from].rmw.Some? {
      RankedStops(g, rank, g[from].rmw.value, to);
    }
  }

  lemma PushEnds(g: Graph, from: nat, to: nat)
    requires Ends(g, from, to) && to < |g|
    ensures var h := PushEdge(g, from, to);
            && |h| == |g| && (to in g[from].edges ==> h == g)
            && (to !in g[from].edges && h[from].rmw.Some? ==> Stops(h, h[from].rmw.value, to))
  {
    PushEdgeShape(g, from, to);
    if g[from].rmw.Some? {
      SameStops(g, PushEdge(g, from, to), g[from].rmw.value, to);
    }
  }

  // ----- the calls -----

  datatype State = State(g: Graph, cyclic: bool)

  /** The edge from the end of the chain of readers behind a write. */
  ghost function ChainStep(s: State, from: nat, to: nat): State
    requires from < |s.g| && to < |s.g|
  {
    if s.g[from].rmw.None? then s
    else
      var e := ChainStop(s.g, s.g[from].rmw.value, to);
      if e == to || to in s.g[e].edges then s
      else
        var g := PushEdge(s.g, e, to);
        State(g, s.cyclic || Reach(Pairs(g), to, e))
  }

  /** The edge and the one behind the reader's chain, for a call that comes to an end. */
  ghost function AddNodeEdge(s: State, from: nat, to: nat): State
    requires from < |s.g| && to < |s.g|
  {
    if to in s.g[from].edges then s
    else
      var g := PushEdge(s.g, from, to);
      ChainStep(State(g, s.cyclic || Reach(Pairs(g), to, from)), from, to)
  }

  ghost function SetRmw(g: Graph, from: nat, rmw: nat): Graph
    requires from < |g|
  {
    g[from := g[from].(rmw := Some(rmw))]
  }

  ghost function CopyEdges(g: Graph, rmw: nat, ts: seq<nat>): (g': Graph)
    requires rmw < |g| && InRange(g, ts)
    ensures |g'| == |g|
    decreases |ts|
  {
    if ts == [] then g
    else
      CopyEdges(if ts[0] != rmw then PushEdge(g, rmw, ts[0]) else g, rmw, ts[1..])
  }

  /** No read-modify-write reads from the node. */
  ghost predicate Unread(g: Graph, r: nat) {
    r < |g| && g[r].rmw.None?
  }

  /** The node has no incoming edge, no reader, and is not yet a reader itself. */
  ghost predicate Fresh(g: Graph, r: nat) {
    && r < |g| && g[r].rmw.None? && g[r].back == []
    && forall a :: 0 <= a < |g| ==> g[a].rmw != Some(r)
  }

  /** The graph after the reader is attached, if the write has none yet. */
  ghost function Attached(g: Graph, from: nat, rmw: nat): Graph
    requires from < |g|
  {
    if g[from].rmw.Some? then g else SetRmw(g, from, rmw)
  }

  /** Attaching a reader and giving it the outgoing edges of its write. */
  ghost function Copied(s: State, from: nat, rmw: nat): State
    requires from < |s.g| && rmw < |s.g| && InRange(s.g, s.g[from].edges)
  {
    var g := Attached(s.g, from, rmw);
    State(CopyEdges(g, rmw, g[from].edges), s.cyclic || s.g[from].rmw.Some?)
  }

  ghost function AddRmwEdge(s: State, from: nat, rmw: nat): State
    requires from < |s.g| && rmw < |s.g| && InRange(s.g, s.g[from].edges)
  {
    AddNodeEdge(Copied(s, from, rmw), from, rmw)
  }

  lemma {:induction false} CopyEdgesRmw(g: Graph, rmw: nat, ts: seq<nat>)
    requires rmw < |g| && InRange(g, ts)
    ensures forall x :: 0 <= x < |g| ==> CopyEdges(g, rmw, ts)[x].rmw == g[x].rmw
    decreases |ts|
  {
    if ts != [] {
      PushEdgeShape(g, rmw, ts[0]);
      CopyEdgesRmw(if ts[0] != rmw then PushEdge(g, rmw, ts[0]) else g, rmw, ts[1..]);
    }
  }

  lemma {:induction false} CopyEdgesFacts(g: Graph, rmw: nat, ts: seq<nat>)
    requires rmw < |g| && InRange(g, ts) && WellFormed(g)
    ensures var g' := CopyEdges(g, rmw, ts);
            && WellFormed(g')
            && Pairs(g) <= Pairs(g')
            && (forall x, y :: (x, y) in Pairs(g') <==> (x, y) in Pairs(g) || (x == rmw && y in ts && y != rmw))
    decreases |ts|
  {
    hide WellFormed, Pushed, PushEdge, Pairs;
    if ts != [] {
      var t := ts[0];
      var g1 := if t != rmw then PushEdge(g, rmw, t) else g;
      if t != rmw {
        PushEdgeShape(g, rmw, t);
        PushEdgeWellFormed(g, rmw, t);
        PushEdgePairs(g, rmw, t);
      }
      CopyEdgesFacts(g1, rmw, ts[1..]);
      forall y | y in ts
        ensures y == t || y in ts[1..]
      {
      }
    }
  }

  // ----- what is asked of a modification order -----

  /** One constraint handed to the graph. */
  datatype Request = Before(a: nat, b: nat) | ReadByRmw(w: nat, r: nat)

  ghost predicate Meets(order: seq<nat>, q: Request) {
    match q
    case Before(a, b) => Precedes(order, a, b)
    case ReadByRmw(w, r) => Adjacent(order, w, r)
  }

  ghost predicate Satisfies(order: seq<nat>, reqs: seq<Request>) {
    Distinct(order) && forall q :: q in reqs ==> Meets(order, q)
  }

  ghost predicate Orients(order: seq<nat>, rel: Rel) {
    forall x, y :: (x, y) in rel ==> Precedes(order, x, y)
  }

  /** Whatever follows a write follows the read-modify-write that reads from it. */
  ghost predicate RmwDominates(g: Graph) {
    forall a, b {:trigger (a, b) in Pairs(g)} :: (a, b) in Pairs(g) && g[a].rmw.Some? ==>
      Reach(Pairs(g), g[a].rmw.value, b)
  }

  ghost predicate RmwEdges(g: Graph) {
    forall a :: 0 <= a < |g| && g[a].rmw.Some? ==> (a, g[a].rmw.value) in Pairs(g)
  }

  ghost predicate RmwInjective(g: Graph) {
    forall a, b :: 0 <= a < b < |g| && g[a].rmw.Some? ==> g[a].rmw != g[b].rmw
  }

  ghost predicate Recorded(s: State, q: Request) {
    match q
    case Before(a, b) => (a, b) in Pairs(s.g)
    case ReadByRmw(w, r) => (w, r) in Pairs(s.g) && w < |s.g| && (!s.cyclic ==> s.g[w].rmw == Some(r))
  }

  /** The graph holds the requests and what they entail; the flag tells the contradiction. */
  ghost predicate Inv(s: State, rank: seq<nat>, reqs: seq<Request>) {
    && WellFormed(s.g) && Ranked(s.g, rank)
    && (forall q :: q in reqs ==> Recorded(s, q))
    && RmwEdges(s.g) && RmwInjective(s.g)
    && (forall a :: 0 <= a < |s.g| && s.g[a].rmw.Some? ==> ReadByRmw(a, s.g[a].rmw.value) in reqs)
    && (!s.cyclic ==> Acyclic(Pairs(s.g)) && RmwDominates(s.g))
    && (forall order :: Satisfies(order, reqs) ==> !s.cyclic && Orients(order, Pairs(s.g)))
  }

  // ----- a flag that is down gives an order -----

  ghost predicate GoodSuffix(g: Graph, suffix: seq<nat>) {
    && Distinct(suffix)
    && InRange(g, suffix)
    && (forall x, y :: x in suffix && (x, y) in Pairs(g) ==> Precedes(suffix, x, y))
    && (forall x :: x in suffix && g[x].rmw.Some? ==> Adjacent(suffix, x, g[x].rmw.value))
    && (forall f :: 0 <= f < |g| && g[f].rmw.Some? && g[f].rmw.value in suffix ==>
          f in suffix || suffix[0] == g[f].rmw.value)
  }

  lemma PrecedesCons(x: nat, suffix: seq<nat>, a: nat, b: nat)
    requires Precedes(suffix, a, b)
    ensures Precedes([x] + suffix, a, b)
  {
    var i, j :| 0 <= i < j < |suffix| && suffix[i] == a && suffix[j] == b;
    assert ([x] + suffix)[i + 1] == a && ([x] + suffix)[j + 1] == b;
  }

  lemma PrecedesHead(x: nat, suffix: seq<nat>, b: nat)
    requires b in suffix
    ensures Precedes([x] + suffix, x, b)
  {
    var j :| 0 <= j < |suffix| && suffix[j] == b;
    assert ([x] + suffix)[0] == x && ([x] + suffix)[j + 1] == b;
  }

  lemma AdjacentCons(x: nat, suffix: seq<nat>, a: nat, b: nat)
    requires Adjacent(suffix, a, b)
    ensures Adjacent([x] + suffix, a, b)
  {
    var i :| 0 <= i < |suffix| - 1 && suffix[i] == a && suffix[i + 1] == b;
    assert ([x] + suffix)[i + 1] == a && ([x] + suffix)[i + 2] == b;
  }

  /** A node whose successors are all placed can be placed next. */
  lemma Extend(g: Graph, suffix: seq<nat>, x: nat)
    requires WellFormed(g) && RmwEdges(g) && RmwInjective(g) && GoodSuffix(g, suffix)
    requires x < |g| && x !in suffix
    requires forall y :: (x, y) in Pairs(g) ==> y in suffix
    requires g[x].rmw.Some? ==> suffix != [] && suffix[0] == g[x].rmw.value
    requires forall f :: 0 <= f < |g| && f !in suffix && suffix != [] && g[f].rmw == Some(suffix[0]) ==> f == x
    ensures GoodSuffix(g, [x] + suffix)
  {
    var s := [x] + suffix;
    forall a, b | a in s && (a, b) in Pairs(g)
      ensures Precedes(s, a, b)
    {
      if a == x {
        PrecedesHead(x, suffix, b);
      } else {
        PrecedesCons(x, suffix, a, b);
      }
    }
    forall a | a in s && g[a].rmw.Some?
      ensures Adjacent(s, a, g[a].rmw.value)
    {
      if a == x {
        assert s[0] == x && s[1] == suffix[0];
      } else {
        AdjacentCons(x, suffix, a, g[a].rmw.value);
      }
    }
    forall f | 0 <= f < |g| && g[f].rmw.Some? && g[f].rmw.value in s
      ensures f in s || s[0] == g[f].rmw.value
    {
    }
  }

  lemma {:induction false} BuildOrder(g: Graph, suffix: seq<nat>) returns (order: seq<nat>)
    requires WellFormed(g) && RmwEdges(g) && RmwInjective(g) && RmwDominates(g) && Acyclic(Pairs(g))
    requires GoodSuffix(g, suffix)
    ensures GoodSuffix(g, order) && TotalOrder(order, |g|)
    decreases |Below(|g|) - Elements(suffix)|
  {
    hide WellFormed, RmwEdges, RmwInjective, RmwDominates, Acyclic, GoodSuffix, TotalOrder, Pairs;
    if x :| x in Below(|g|) && x !in suffix {
      var next := NextNode(g, suffix);
      Extend(g, suffix, next);
      assert Elements([next] + suffix) == Elements(suffix) + {next};
      SmallerSubset(Below(|g|) - Elements([next] + suffix), Below(|g|) - Elements(suffix));
      order := BuildOrder(g, [next] + suffix);
    } else {
      order := suffix;
      AllPlaced(g, suffix);
    }
  }

  lemma AllPlaced(g: Graph, suffix: seq<nat>)
    requires GoodSuffix(g, suffix) && forall x :: x in Below(|g|) ==> x in suffix
    ensures TotalOrder(suffix, |g|)
  {
    assert forall x: nat :: x < |g| ==> x in Below(|g|);
  }

  ghost function Elements(s: seq<nat>): set<nat> {
    set x | x in s
  }

  /** The writer that the last placed reader waits for, or any node with no open successor. */
  lemma NextNode(g: Graph, suffix: seq<nat>) returns (x: nat)
    requires WellFormed(g) && RmwEdges(g) && RmwInjective(g) && RmwDominates(g) && Acyclic(Pairs(g))
    requires GoodSuffix(g, suffix) && exists y :: y in Below(|g|) && y !in suffix
    ensures x < |g| && x !in suffix
    ensures forall y :: (x, y) in Pairs(g) ==> y in suffix
    ensures g[x].rmw.Some? ==> suffix != [] && suffix[0] == g[x].rmw.value
    ensures forall f :: 0 <= f < |g| && f !in suffix && suffix != [] && g[f].rmw == Some(suffix[0]) ==> f == x
  {
    if f :| 0 <= f < |g| && f !in suffix && suffix != [] && g[f].rmw == Some(suffix[0]) {
      x := f;
      DominatedPlaced(g, suffix, x);
    } else {
      x := SinkExists(Pairs(g), |g|, Below(|g|) - Elements(suffix));
      forall y | (x, y) in Pairs(g)
        ensures y in suffix
      {
        assert y < |g|;
      }
      ReaderPair(g, x);
    }
  }

  lemma ReaderPair(g: Graph, x: nat)
    requires RmwEdges(g) && x < |g|
    ensures g[x].rmw.Some? ==> (x, g[x].rmw.value) in Pairs(g)
  {
  }

  /** Once the reader of a write is placed, so is everything after the write. */
  lemma DominatedPlaced(g: Graph, suffix: seq<nat>, f: nat)
    requires WellFormed(g) && RmwDominates(g) && GoodSuffix(g, suffix)
    requires f < |g| && suffix != [] && g[f].rmw == Some(suffix[0])
    ensures forall y :: (f, y) in Pairs(g) ==> y in suffix
  {
    var placed := set x | x in suffix;
    forall y | (f, y) in Pairs(g)
      ensures y in suffix
    {
      forall a, b | a in placed && (a, b) in Pairs(g)
        ensures b in placed
      {
        assert Precedes(suffix, a, b);
      }
      ReachClosed(Pairs(g), placed, suffix[0], y);
    }
  }

  /**
   * The decision theorem: the flag is down exactly when some total order of the nodes keeps
   * every requested edge and puts every read-modify-write right after the write it reads.
   */
  lemma FlagDecides(s: State, rank: seq<nat>, reqs: seq<Request>)
    requires Inv(s, rank, reqs)
    ensures !s.cyclic <==> exists order :: TotalOrder(order, |s.g|) && Satisfies(order, reqs)
  {
    if !s.cyclic {
      var order := BuildOrder(s.g, []);
      forall q | q in reqs
        ensures Meets(order, q)
      {
        assert Recorded(s, q);
      }
      assert Satisfies(order, reqs);
    }
  }

  // ----- every call keeps the invariant -----

  lemma SatisfiesPrefix(order: seq<nat>, reqs: seq<Request>, q: Request)
    requires Satisfies(order, reqs + [q])
    ensures Satisfies(order, reqs) && Meets(order, q)
  {
    assert q in reqs + [q];
    forall p | p in reqs
      ensures Meets(order, p)
    {
      assert p in reqs + [q];
    }
  }

  lemma AdjacentNext(order: seq<nat>, a: nat, r: nat, b: nat)
    requires Distinct(order) && Adjacent(order, a, r) && Precedes(order, a, b) && r != b
    ensures Precedes(order, r, b)
  {
    var i :| 0 <= i < |order| - 1 && order[i] == a && order[i + 1] == r;
    var k, j :| 0 <= k < j < |order| && order[k] == a && order[j] == b;
    assert k == i && i + 1 < j;
  }

  lemma AdjacentUnique(order: seq<nat>, a: nat, r: nat, r': nat)
    requires Distinct(order) && Adjacent(order, a, r) && Adjacent(order, a, r')
    ensures r == r'
  {
  }

  ghost predicate ReadersAdjacent(g: Graph, order: seq<nat>) {
    Distinct(order) && forall a :: 0 <= a < |g| && g[a].rmw.Some? ==> Adjacent(order, a, g[a].rmw.value)
  }

  lemma {:induction false} ChainReach(g: Graph, rank: seq<nat>, r: nat, to: nat)
    requires Ranked(g, rank) && r < |g| && RmwEdges(g)
    ensures Reach(Pairs(g), r, ChainStop(g, r, to))
    decreases rank[r]
  {
    ChainStopStep(g, r, to);
    if r == to || g[r].rmw.None? {
      ReachRefl(Pairs(g), r);
    } else {
      var n := g[r].rmw.value;
      ChainReach(g, rank, n, to);
      ReachPair(Pairs(g), r, n);
      ReachTrans(Pairs(g), r, n, ChainStop(g, n, to));
    }
  }

  lemma {:induction false} ChainOrder(g: Graph, rank: seq<nat>, r: nat, to: nat, order: seq<nat>)
    requires Ranked(g, rank) && r < |g| && ReadersAdjacent(g, order)
    requires r == to || Precedes(order, r, to)
    ensures var e := ChainStop(g, r, to); e == to || Precedes(order, e, to)
    decreases rank[r]
  {
    ChainStopStep(g, r, to);
    if r != to && g[r].rmw.Some? {
      var n := g[r].rmw.value;
      if n != to {
        AdjacentNext(order, r, n, to);
      }
      ChainOrder(g, rank, n, to, order);
    }
  }

  /** t has the nodes of s with the same readers, and the pairs of rel. */
  ghost predicate Grown(s: State, t: State, rel: Rel) {
    && WellFormed(t.g) && |t.g| == |s.g|
    && (forall a :: 0 <= a < |s.g| ==> t.g[a].rmw == s.g[a].rmw)
    && rel <= Pairs(t.g)
    && (s.cyclic ==> t.cyclic)
  }

  lemma ChainStepShape(s: State, from: nat, to: nat)
    requires WellFormed(s.g) && from < |s.g| && to < |s.g|
    ensures Grown(s, ChainStep(s, from, to), Pairs(s.g))
  {
    if s.g[from].rmw.Some? {
      var e := ChainStop(s.g, s.g[from].rmw.value, to);
      assert e < |s.g|;
      PushEdgeShape(s.g, e, to);
      PushEdgeWellFormed(s.g, e, to);
      PushEdgePairs(s.g, e, to);
    }
  }

  /** What every edge addition does to the lists, whatever the flag says. */
  lemma AddNodeEdgeShape(s: State, from: nat, to: nat)
    requires WellFormed(s.g) && from < |s.g| && to < |s.g|
    ensures Grown(s, AddNodeEdge(s, from, to), Pairs(s.g) + {(from, to)})
  {
    if to !in s.g[from].edges {
      var g := PushEdge(s.g, from, to);
      PushEdgeShape(s.g, from, to);
      PushEdgeWellFormed(s.g, from, to);
      PushEdgePairs(s.g, from, to);
      ChainStepShape(State(g, s.cyclic || Reach(Pairs(g), to, from)), from, to);
    }
  }

  /** The flag goes up exactly when the new edges close a cycle. */
  lemma AddNodeEdgeExact(s: State, from: nat, to: nat)
    requires from < |s.g| && to < |s.g|
    requires !s.cyclic && Acyclic(Pairs(s.g))
    ensures var t := AddNodeEdge(s, from, to); !t.cyclic <==> Acyclic(Pairs(t.g))
  {
    if to !in s.g[from].edges {
      var g1 := PushEdge(s.g, from, to);
      PushEdgePairs(s.g, from, to);
      PushEdgeShape(s.g, from, to);
      AcyclicAdd(Pairs(s.g), from, to);
      if g1[from].rmw.Some? {
        var e := ChainStop(g1, g1[from].rmw.value, to);
        if e != to && to !in g1[e].edges {
          var g2 := PushEdge(g1, e, to);
          PushEdgePairs(g1, e, to);
          if Acyclic(Pairs(g1)) {
            AcyclicAdd(Pairs(g1), e, to);
          } else {
            if Acyclic(Pairs(g2)) {
              AcyclicMono(Pairs(g1), Pairs(g2));
            }
          }
        }
      }
    }
  }

  /** The pairs after a new edge: the edge itself and, behind a reader, the one at the end of its chain. */
  lemma AddNodeEdgePairs(s: State, from: nat, to: nat) returns (e: nat)
    requires from < |s.g| && to < |s.g| && to !in s.g[from].edges
    ensures var rel := Pairs(AddNodeEdge(s, from, to).g);
            if s.g[from].rmw.None? then rel == Pairs(s.g) + {(from, to)}
            else
              && e == ChainStop(PushEdge(s.g, from, to), s.g[from].rmw.value, to)
              && rel == Pairs(s.g) + {(from, to)} + (if e == to then {} else {(e, to)})
  {
    var g1 := PushEdge(s.g, from, to);
    PushEdgeShape(s.g, from, to);
    PushEdgePairs(s.g, from, to);
    e := to;
    if s.g[from].rmw.Some? {
      e := ChainStop(g1, s.g[from].rmw.value, to);
      PushEdgePairs(g1, e, to);
    }
  }

  /** The derived edge at the end of the chain keeps readers ahead of what follows their write. */
  lemma AddNodeEdgeDominates(s: State, rank: seq<nat>, from: nat, to: nat)
    requires WellFormed(s.g) && Ranked(s.g, rank) && from < |s.g| && to < |s.g|
    requires RmwEdges(s.g) && RmwDominates(s.g)
    ensures RmwDominates(AddNodeEdge(s, from, to).g)
  {
    hide WellFormed, Reach, Pushed, ChainStep, ChainStop;
    if to !in s.g[from].edges {
      AddNodeEdgeShape(s, from, to);
      var t := AddNodeEdge(s, from, to);
      var e := AddNodeEdgePairs(s, from, to);
      PushEdgeShape(s.g, from, to);
      if s.g[from].rmw.Some? {
        PushEdgePairs(s.g, from, to);
        ChainReachesTarget(PushEdge(s.g, from, to), rank, s.g[from].rmw.value, to, Pairs(t.g));
      }
      DominatesGrow(s.g, t.g, from, to);
    }
  }

  lemma ChainReachesTarget(g: Graph, rank: seq<nat>, r: nat, to: nat, rel: Rel)
    requires Ranked(g, rank) && r < |g| && RmwEdges(g) && Pairs(g) <= rel
    requires var e := ChainStop(g, r, to); e == to || (e, to) in rel
    ensures Reach(rel, r, to)
  {
    var e := ChainStop(g, r, to);
    ChainReach(g, rank, r, to);
    ReachMono(Pairs(g), rel, r, e);
    if e != to {
      ReachPair(rel, e, to);
      ReachTrans(rel, r, e, to);
    }
  }

  lemma DominatesGrow(g: Graph, h: Graph, from: nat, to: nat)
    requires RmwDominates(g) && |h| == |g| && forall a :: 0 <= a < |g| ==> h[a].rmw == g[a].rmw
    requires Pairs(g) <= Pairs(h) && from < |g|
    requires forall a, b :: (a, b) in Pairs(h) && (a, b) !in Pairs(g) && (a, b) != (from, to) ==> h[a].rmw.None?
    requires h[from].rmw.Some? ==> Reach(Pairs(h), h[from].rmw.value, to)
    ensures RmwDominates(h)
  {
    forall a, b | (a, b) in Pairs(h) && h[a].rmw.Some?
      ensures Reach(Pairs(h), h[a].rmw.value, b)
    {
      if (a, b) in Pairs(g) {
        ReachMono(Pairs(g), Pairs(h), h[a].rmw.value, b);
      }
    }
  }

  /** Any order that meets the requests agrees with the edges the call adds, and then the flag stays down. */
  lemma AddNodeEdgeOrder(s: State, rank: seq<nat>, from: nat, to: nat, order: seq<nat>)
    requires Ranked(s.g, rank) && from < |s.g| && to < |s.g|
    requires !s.cyclic && ReadersAdjacent(s.g, order) && Orients(order, Pairs(s.g)) && Precedes(order, from, to)
    ensures var t := AddNodeEdge(s, from, to); !t.cyclic && Orients(order, Pairs(t.g))
  {
    if to !in s.g[from].edges {
      var g1 := PushEdge(s.g, from, to);
      PushEdgeShape(s.g, from, to);
      PushEdgePairs(s.g, from, to);
      OrderMakesAcyclic(Pairs(g1), order);
      assert (from, to) in Pairs(g1);
      if g1[from].rmw.Some? {
        var r := g1[from].rmw.value;
        if r != to {
          AdjacentNext(order, from, r, to);
        }
        ChainOrder(g1, rank, r, to, order);
        var e := ChainStop(g1, r, to);
        if e != to && to !in g1[e].edges {
          PushEdgePairs(g1, e, to);
          OrderMakesAcyclic(Pairs(PushEdge(g1, e, to)), order);
          assert (e, to) in Pairs(PushEdge(g1, e, to));
        }
      }
    }
  }

  lemma ReadersFromRequests(s: State, rank: seq<nat>, reqs: seq<Request>, order: seq<nat>)
    requires Inv(s, rank, reqs) && Satisfies(order, reqs)
    ensures ReadersAdjacent(s.g, order)
  {
    forall a | 0 <= a < |s.g| && s.g[a].rmw.Some?
      ensures Adjacent(order, a, s.g[a].rmw.value)
    {
      assert Meets(order, ReadByRmw(a, s.g[a].rmw.value));
    }
  }

  lemma AddNodeEdgeInv(s: State, rank: seq<nat>, reqs: seq<Request>, from: nat, to: nat)
    requires Inv(s, rank, reqs) && from < |s.g| && to < |s.g|
    ensures Inv(AddNodeEdge(s, from, to), rank, reqs + [Before(from, to)])
  {
    hide Pairs, AddNodeEdge, Reach, RmwDominates, Grown;
    var t := AddNodeEdge(s, from, to);
    var reqs' := reqs + [Before(from, to)];
    AddNodeEdgeShape(s, from, to);
    forall q | q in reqs'
      ensures Recorded(t, q)
    {
      if q in reqs {
        assert Recorded(s, q);
      }
    }
    if !t.cyclic {
      AddNodeEdgeExact(s, from, to);
      AddNodeEdgeDominates(s, rank, from, to);
    }
    forall order | Satisfies(order, reqs')
      ensures !t.cyclic && Orients(order, Pairs(t.g))
    {
      SatisfiesPrefix(order, reqs, Before(from, to));
      ReadersFromRequests(s, rank, reqs, order);
      AddNodeEdgeOrder(s, rank, from, to, order);
    }
  }

  lemma {:induction false} CopyEdgesAcyclic(g: Graph, rmw: nat, ts: seq<nat>)
    requires rmw < |g| && InRange(g, ts) && Acyclic(Pairs(g))
    requires forall y :: (y, rmw) !in Pairs(g)
    ensures Acyclic(Pairs(CopyEdges(g, rmw, ts)))
    decreases |ts|
  {
    if ts != [] {
      var t := ts[0];
      if t != rmw {
        PushEdgePairs(g, rmw, t);
        PushEdgeShape(g, rmw, t);
        AcyclicAdd(Pairs(g), rmw, t);
        if Reach(Pairs(PushEdge(g, rmw, t)), t, rmw) {
          var y := ReachLast(Pairs(PushEdge(g, rmw, t)), t, rmw);
        }
        CopyEdgesAcyclic(PushEdge(g, rmw, t), rmw, ts[1..]);
      } else {
        CopyEdgesAcyclic(g, rmw, ts[1..]);
      }
    }
  }

  lemma SetRmwFacts(g: Graph, from: nat, rmw: nat)
    requires WellFormed(g) && from < |g| && rmw < |g|
    ensures WellFormed(SetRmw(g, from, rmw)) && Pairs(SetRmw(g, from, rmw)) == Pairs(g)
    ensures forall x :: 0 <= x < |g| ==> SetRmw(g, from, rmw)[x].edges == g[x].edges
  {
    var h := SetRmw(g, from, rmw);
    forall x: nat, y: nat
      ensures (x, y) in Pairs(h) <==> (x, y) in Pairs(g)
    {
    }
    assert Mirrored(h);
  }

  lemma TakenShape(s: State, from: nat, rmw: nat)
    requires WellFormed(s.g) && from < |s.g| && rmw < |s.g| && s.g[from].rmw.Some?
    ensures InRange(s.g, s.g[from].edges)
    ensures var t := AddRmwEdge(s, from, rmw);
            && t.cyclic && WellFormed(t.g) && |t.g| == |s.g|
            && Pairs(s.g) + {(from, rmw)} <= Pairs(t.g)
            && forall a :: 0 <= a < |s.g| ==> t.g[a].rmw == s.g[a].rmw
  {
    assert NodeList(|s.g|, s.g[from].edges);
    var g2 := CopyEdges(s.g, rmw, s.g[from].edges);
    CopyEdgesRmw(s.g, rmw, s.g[from].edges);
    CopyEdgesFacts(s.g, rmw, s.g[from].edges);
    AddNodeEdgeShape(State(g2, true), from, rmw);
  }

  /**
   * The write already has a reader: it keeps it, the flag goes up, and the refused reader is ordered after the write.
   */
  lemma AddRmwEdgeTaken(s: State, rank: seq<nat>, reqs: seq<Request>, from: nat, rmw: nat)
    requires Inv(s, rank, reqs) && from < |s.g| && Fresh(s.g, rmw)
    requires s.g[from].rmw.Some?
    ensures Inv(AddRmwEdge(s, from, rmw), rank, reqs + [ReadByRmw(from, rmw)])
    ensures var t := AddRmwEdge(s, from, rmw);
            && t.cyclic && |t.g| == |s.g| && Pairs(s.g) + {(from, rmw)} <= Pairs(t.g)
            && forall a :: 0 <= a < |s.g| ==> t.g[a].rmw == s.g[a].rmw
  {
    var reqs' := reqs + [ReadByRmw(from, rmw)];
    TakenShape(s, from, rmw);
    var t := AddRmwEdge(s, from, rmw);
    forall q | q in reqs'
      ensures Recorded(t, q)
    {
      if q in reqs {
        assert Recorded(s, q);
      }
    }
    forall order
      ensures !Satisfies(order, reqs')
    {
      if Satisfies(order, reqs') {
        SatisfiesPrefix(order, reqs, ReadByRmw(from, rmw));
        assert Meets(order, ReadByRmw(from, s.g[from].rmw.value));
        AdjacentUnique(order, from, rmw, s.g[from].rmw.value);
      }
    }
  }

  /** The graph after a first reader is attached, and its pairs. */
  lemma AddRmwEdgeFirst(s: State, from: nat, rmw: nat) returns (t: State)
    requires WellFormed(s.g) && from < |s.g| && Fresh(s.g, rmw) && from != rmw
    requires s.g[from].rmw.None?
    ensures t == AddRmwEdge(s, from, rmw)
    ensures WellFormed(t.g) && |t.g| == |s.g|
    ensures forall a :: 0 <= a < |s.g| ==> t.g[a].rmw == if a == from then Some(rmw) else s.g[a].rmw
    ensures forall x, y :: (x, y) in Pairs(t.g) <==>
              || (x, y) in Pairs(s.g) || (x == from && y == rmw)
              || (x == rmw && y in s.g[from].edges)
    ensures t.cyclic == (s.cyclic || Reach(Pairs(t.g), rmw, from))
    ensures !s.cyclic && Acyclic(Pairs(s.g)) ==> (!t.cyclic <==> Acyclic(Pairs(t.g)))
  {
    hide PushEdge, Acyclic, Reach, Grown, CopyEdges, Pushed;
    var g1 := SetRmw(s.g, from, rmw);
    var ts := s.g[from].edges;
    SetRmwFacts(s.g, from, rmw);
    assert rmw !in ts by {
      assert from !in s.g[rmw].back;
    }
    var g2 := CopyEdges(g1, rmw, ts);
    CopyEdgesRmw(g1, rmw, ts);
    CopyEdgesFacts(g1, rmw, ts);
    t := AddRmwEdge(s, from, rmw);
    assert (from, rmw) !in Pairs(g2);
    AddNodeEdgeShape(State(g2, s.cyclic), from, rmw);
    PushEdgePairs(g2, from, rmw);
    PushEdgeShape(g2, from, rmw);
    if !s.cyclic && Acyclic(Pairs(s.g)) {
      forall y
        ensures (y, rmw) !in Pairs(g1)
      {
        assert rmw < |s.g| && y !in s.g[rmw].back;
      }
      CopyEdgesAcyclic(g1, rmw, ts);
      AcyclicAdd(Pairs(g2), from, rmw);
    }
  }

  /** Nothing that follows the write, other than the reader, comes before the reader. */
  ghost predicate CopiesSafely(g: Graph, from: nat, rmw: nat)
    requires from < |g|
  {
    forall y {:trigger y in g[from].edges} :: y in g[from].edges && y != rmw ==> !Reach(Pairs(g), y, rmw)
  }

  lemma {:induction false} CopySafe(g: Graph, rmw: nat, ts: seq<nat>)
    requires rmw < |g| && InRange(g, ts) && Acyclic(Pairs(g))
    requires forall y {:trigger y in ts} :: y in ts && y != rmw ==> !Reach(Pairs(g), y, rmw)
    ensures Acyclic(Pairs(CopyEdges(g, rmw, ts)))
    decreases |ts|
  {
    hide Acyclic, Reach, PushEdge;
    if ts != [] {
      var t := ts[0];
      var g1 := if t != rmw then PushEdge(g, rmw, t) else g;
      if t != rmw {
        PushEdgePairs(g, rmw, t);
        PushEdgeShape(g, rmw, t);
        assert t in ts;
        AcyclicAdd(Pairs(g), rmw, t);
        ReachAdd(Pairs(g), rmw, t, t, rmw);
      }
      forall y | y in ts[1..] && y != rmw
        ensures !Reach(Pairs(g1), y, rmw)
      {
        assert y in ts;
        ReachAdd(Pairs(g), rmw, t, y, rmw);
      }
      CopySafe(g1, rmw, ts[1..]);
    }
  }

  /**
   * A first reader, whatever edges it has: the copied edges are not checked, so the flag misses a cycle exactly if
   * something after the write comes before the reader. A reader without incoming edges or a write without outgoing
   * ones rule that out.
   */
  lemma AddRmwEdgeExact(s: State, from: nat, rmw: nat)
    requires WellFormed(s.g) && from < |s.g| && Unread(s.g, rmw) && from != rmw && s.g[from].rmw.None?
    requires !s.cyclic && Acyclic(Pairs(s.g))
    ensures InRange(s.g, s.g[from].edges)
    ensures var t := AddRmwEdge(s, from, rmw); Acyclic(Pairs(t.g)) <==> !t.cyclic && CopiesSafely(s.g, from, rmw)
    ensures s.g[rmw].back == [] || s.g[from].edges == [] ==> CopiesSafely(s.g, from, rmw)
  {
    hide PushEdge, Acyclic, Reach, WellFormed;
    var g1, ts := SetRmw(s.g, from, rmw), s.g[from].edges;
    TargetsInRange(s.g, from);
    SetRmwFacts(s.g, from, rmw);
    CopyEdgesRmw(g1, rmw, ts);
    CopyEdgesFacts(g1, rmw, ts);
    var g2 := CopyEdges(g1, rmw, ts);
    var t := AddRmwEdge(s, from, rmw);
    assert t == AddNodeEdge(State(g2, false), from, rmw);
    AddNodeEdgeShape(State(g2, false), from, rmw);
    if CopiesSafely(s.g, from, rmw) {
      CopySafe(g1, rmw, ts);
      AddNodeEdgeExact(State(g2, false), from, rmw);
    } else {
      UnsafeCopy(s.g, t.g, from, rmw);
    }
    NothingBack(s.g, from, rmw);
  }

  lemma TargetsInRange(g: Graph, from: nat)
    requires WellFormed(g) && from < |g|
    ensures InRange(g, g[from].edges)
  {
    assert NodeList(|g|, g[from].edges);
  }

  /** A copied edge to something before the reader closes a cycle. */
  lemma UnsafeCopy(g: Graph, h: Graph, from: nat, rmw: nat)
    requires from < |g| && !CopiesSafely(g, from, rmw) && Pairs(g) <= Pairs(h)
    requires forall y {:trigger y in g[from].edges} :: y in g[from].edges && y != rmw ==> (rmw, y) in Pairs(h)
    ensures !Acyclic(Pairs(h))
  {
    var y :| y in g[from].edges && y != rmw && Reach(Pairs(g), y, rmw);
    ReachMono(Pairs(g), Pairs(h), y, rmw);
  }

  lemma NoneInto(g: Graph, b: nat)
    requires WellFormed(g) && b < |g| && g[b].back == []
    ensures forall x :: (x, b) !in Pairs(g)
  {
    forall x: nat | x < |g|
      ensures b !in g[x].edges
    {
      assert x !in g[b].back;
    }
  }

  lemma NothingBack(g: Graph, from: nat, rmw: nat)
    requires WellFormed(g) && from < |g| && rmw < |g|
    ensures g[rmw].back == [] || g[from].edges == [] ==> CopiesSafely(g, from, rmw)
  {
    if g[rmw].back == [] {
      NoneInto(g, rmw);
      forall y | y in g[from].edges && y != rmw
        ensures !Reach(Pairs(g), y, rmw)
      {
        if Reach(Pairs(g), y, rmw) {
          var _ := ReachLast(Pairs(g), y, rmw);
        }
      }
    }
  }

  /** Where nothing comes before the write, the flag stays down. */
  lemma FlagStaysDown(s: State, from: nat, rmw: nat)
    requires WellFormed(s.g) && from < |s.g| && Unread(s.g, rmw) && from != rmw && s.g[from].rmw.None?
             && s.g[from].back == []
    requires !s.cyclic
    ensures InRange(s.g, s.g[from].edges) && !AddRmwEdge(s, from, rmw).cyclic
  {
    hide PushEdge, WellFormed, Acyclic;
    var g1, ts := SetRmw(s.g, from, rmw), s.g[from].edges;
    TargetsInRange(s.g, from);
    SetRmwFacts(s.g, from, rmw);
    CopyEdgesRmw(g1, rmw, ts);
    CopyEdgesFacts(g1, rmw, ts);
    NoneInto(s.g, from);
    var g2 := CopyEdges(g1, rmw, ts);
    assert forall x :: (x, from) !in Pairs(g2) by {
      assert (from, from) !in Pairs(s.g);
    }
    if rmw !in g2[from].edges {
      var g3 := PushEdge(g2, from, rmw);
      PushEdgePairs(g2, from, rmw);
      PushEdgeShape(g2, from, rmw);
      assert ChainStop(g3, rmw, rmw) == rmw;
      if Reach(Pairs(g3), rmw, from) {
        var _ := ReachLast(Pairs(g3), rmw, from);
      }
    }
  }

  /** A write, another after it, and a third after that one. */
  ghost function ThreeInLine(): Graph {
    [Node([1], [], None), Node([2], [0], None), Node([], [1], None)]
  }

  lemma ThreeShape()
    ensures var g := ThreeInLine(); WellFormed(g) && Unread(g, 2) && Ranked(SetRmw(g, 0, 2), [1, 0, 0])
  {
  }

  lemma ThreePairs()
    ensures Pairs(ThreeInLine()) == {(0, 1), (1, 2)}
  {
    var g := ThreeInLine();
    forall a: nat, b: nat
      ensures (a, b) in Pairs(g) <==> (a, b) in {(0, 1), (1, 2)}
    {
    }
  }

  /** Making the third the reader of the first closes a cycle that the flag misses. */
  lemma MissedCycle()
    ensures var s := State(ThreeInLine(), false);
            && WellFormed(s.g) && Acyclic(Pairs(s.g)) && Ranked(SetRmw(s.g, 0, 2), [1, 0, 0])
            && InRange(s.g, s.g[0].edges)
            && var t := AddRmwEdge(s, 0, 2); !t.cyclic && !Acyclic(Pairs(t.g))
  {
    hide WellFormed, AddRmwEdge, Ranked, Acyclic;
    var s := State(ThreeInLine(), false);
    ThreeShape();
    ThreePairs();
    var order := [0, 1, 2];
    assert order[0] == 0 && order[1] == 1 && order[2] == 2;
    OrderMakesAcyclic(Pairs(s.g), order);
    FlagStaysDown(s, 0, 2);
    ReachPair(Pairs(s.g), 1, 2);
    assert 1 in s.g[0].edges;
    AddRmwEdgeExact(s, 0, 2);
  }

  lemma AddRmwEdgeInv(s: State, rank: seq<nat>, rank': seq<nat>, reqs: seq<Request>, from: nat, rmw: nat)
    requires Inv(s, rank, reqs) && from < |s.g| && Fresh(s.g, rmw) && from != rmw
    requires s.g[from].rmw.None? && Ranked(SetRmw(s.g, from, rmw), rank')
    ensures Inv(AddRmwEdge(s, from, rmw), rank', reqs + [ReadByRmw(from, rmw)])
  {
    hide AddRmwEdge, ChainStop, Acyclic, Reach, RmwEdges, RmwInjective, WellFormed, Pairs, Ranked, Fresh;
    var reqs' := reqs + [ReadByRmw(from, rmw)];
    var t := AddRmwEdgeFirst(s, from, rmw);
    FirstReaderKeeps(s.g, t.g, rank', from, rmw);
    forall q | q in reqs'
      ensures Recorded(t, q)
    {
      if q in reqs {
        assert Recorded(s, q);
      }
    }
    if !t.cyclic {
      FirstReaderDominates(s.g, t.g, from, rmw);
    }
    forall order | Satisfies(order, reqs')
      ensures !t.cyclic && Orients(order, Pairs(t.g))
    {
      SatisfiesPrefix(order, reqs, ReadByRmw(from, rmw));
      FirstReaderOrder(s, t, from, rmw, order);
    }
  }

  lemma FirstReaderKeeps(g: Graph, h: Graph, rank: seq<nat>, from: nat, rmw: nat)
    requires RmwEdges(g) && RmwInjective(g) && from < |g| == |h| && Fresh(g, rmw)
             && Ranked(SetRmw(g, from, rmw), rank)
    requires forall a :: 0 <= a < |g| ==> h[a].rmw == if a == from then Some(rmw) else g[a].rmw
    requires forall x, y :: (x, y) in Pairs(g) || (x == from && y == rmw) ==> (x, y) in Pairs(h)
    ensures RmwEdges(h) && RmwInjective(h) && Ranked(h, rank) && (from, rmw) in Pairs(h)
  {
    var g1 := SetRmw(g, from, rmw);
    assert forall a :: 0 <= a < |g| ==> h[a].rmw == g1[a].rmw;
  }

  /** Everything after the write is after its new reader. */
  lemma FirstReaderDominates(g: Graph, h: Graph, from: nat, rmw: nat)
    requires RmwDominates(g) && from < |g| == |h| && Fresh(g, rmw) && WellFormed(g)
    requires forall a :: 0 <= a < |g| ==> h[a].rmw == if a == from then Some(rmw) else g[a].rmw
    requires forall x, y ::
               (x, y) in Pairs(h) <==> (x, y) in Pairs(g) || (x == from && y == rmw) || (x == rmw && y in g[from].edges)
    ensures RmwDominates(h)
  {
    forall a, b | (a, b) in Pairs(h) && h[a].rmw.Some?
      ensures Reach(Pairs(h), h[a].rmw.value, b)
    {
      if a == from {
        if b == rmw {
          ReachRefl(Pairs(h), rmw);
        } else {
          ReachPair(Pairs(h), rmw, b);
        }
      } else {
        ReachMono(Pairs(g), Pairs(h), h[a].rmw.value, b);
      }
    }
  }

  lemma FirstReaderOrder(s: State, t: State, from: nat, rmw: nat, order: seq<nat>)
    requires from < |s.g| && Distinct(order) && Orients(order, Pairs(s.g)) && Adjacent(order, from, rmw)
    requires WellFormed(s.g) && Fresh(s.g, rmw)
    requires forall x, y :: (x, y) in Pairs(t.g) <==>
              || (x, y) in Pairs(s.g) || (x == from && y == rmw)
              || (x == rmw && y in s.g[from].edges)
    requires t.cyclic == (s.cyclic || Reach(Pairs(t.g), rmw, from)) && !s.cyclic
    ensures !t.cyclic && Orients(order, Pairs(t.g))
  {
    forall x, y | (x, y) in Pairs(t.g)
      ensures Precedes(order, x, y)
    {
      if x == rmw && y in s.g[from].edges {
        assert (from, y) in Pairs(s.g);
        assert y != rmw by {
          assert from !in s.g[rmw].back;
        }
        AdjacentNext(order, from, rmw, y);
      }
    }
    OrderMakesAcyclic(Pairs(t.g), order);
    assert (from, rmw) in Pairs(t.g);
  }

  lemma AddNodeFacts(g: Graph)
    requires WellFormed(g)
    ensures WellFormed(g + [EMPTY_NODE]) && Pairs(g + [EMPTY_NODE]) == Pairs(g)
  {
    var h := g + [EMPTY_NODE];
    assert h[|g|] == EMPTY_NODE && forall a :: 0 <= a < |g| ==> h[a] == g[a];
    forall x: nat, y: nat
      ensures (x, y) in Pairs(h) <==> (x, y) in Pairs(g)
    {
    }
    forall a, b | 0 <= a < |h| && 0 <= b < |h|
      ensures b in h[a].edges <==> a in h[b].back
    {
      if a < |g| && b < |g| {
        assert b in g[a].edges <==> a in g[b].back;
      }
    }
  }

  lemma AddNodeInv(s: State, rank: seq<nat>, reqs: seq<Request>)
    requires Inv(s, rank, reqs)
    ensures Inv(State(s.g + [EMPTY_NODE], s.cyclic), rank + [0], reqs)
    ensures Fresh(s.g + [EMPTY_NODE], |s.g|)
  {
    hide WellFormed, Reach, Acyclic;
    var t := State(s.g + [EMPTY_NODE], s.cyclic);
    AddNodeFacts(s.g);
    forall q | q in reqs
      ensures Recorded(t, q)
    {
      assert Recorded(s, q);
    }
    assert RmwDominates(s.g) ==> RmwDominates(t.g);
  }
}
