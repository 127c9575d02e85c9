/** Calls after a merge that never end. */
module MergeFailures {
  import opened Relations
  import opened GraphTheory
  import opened GraphRollback
  import opened GraphMerge
  import opened GraphCircles
  import opened MergeOutcomes

  // ----- adding edges behind a write that reads from itself -----

  lemma {:induction false} OwnReaderTurns(g: Graph, w: nat, y: nat, n: nat)
    requires w < |g| && g[w].rmw == Some(w) && y != w
    ensures !StopsIn(g, w, y, n)
    decreases n
  {
    if n > 0 {
      OwnReaderTurns(g, w, y, n - 1);
    }
  }

  /** Once a promise is merged into its own reader, no new edge can be added from there: the call never ends. */
  lemma OwnReaderStuck(s: State, p: nat, w: nat, rank: seq<nat>, y: nat)
    requires Mergeable(s, p, w, rank) && Covered(s.g) && s.g[p].rmw == Some(w) && Unread(s.g, w) && y != w
    ensures Merge(s, p, w).Done? && Merge(s, p, w).ok
    ensures var g := Merge(s, p, w).s.g; |g| == |s.g| && (Ends(g, w, y) <==> y in g[w].edges)
  {
    hide WellFormed, Covered, Merge, Ranked, Acyclic, Pairs, ChainEdges, NoReader;
    OnChainStep(s.g, w, w);
    CoveredOutcome(s, p, w, rank);
    MergeMeets(s, p, w);
    var g := Merge(s, p, w).s.g;
    forall n: nat
      ensures !StopsIn(g, w, y, n)
    {
      OwnReaderTurns(g, w, y, n);
    }
  }

  /** A promise 0 and its reader 1. */
  lemma PromiseRead() returns (s: State)
    ensures var s0 := State([EMPTY_NODE, EMPTY_NODE], false); s == AddRmwEdge(s0, 0, 1)
    ensures Mergeable(s, 0, 1, [1, 0]) && Covered(s.g) && s.g[0].rmw == Some(1) && Unread(s.g, 1)
  {
    hide AddRmwEdge;
    var s0 := State([EMPTY_NODE, EMPTY_NODE], false);
    assert Pairs(s0.g) == {};
    s := AddRmwEdgeFirst(s0, 0, 1);
    AddRmwEdgeCovered(s0, 0, 1);
    assert !Reach(Pairs(s.g), 1, 0) by {
      NothingAfter(s.g, 1, 0);
    }
    RmwChainEdges(s.g, 0);
  }

  lemma NothingAfter(g: Graph, x: nat, y: nat)
    requires (forall z: nat :: (x, z) !in Pairs(g)) && x != y
    ensures !Reach(Pairs(g), x, y)
  {
    if Reach(Pairs(g), x, y) {
      ReachClosed(Pairs(g), {x}, x, y);
    }
  }

  /** A promise read by 1 is merged into 1; with a new node 2, ordering 1 before 2 never ends. */
  lemma StuckAfterMerge() returns (s: State, t: State)
    ensures s == AddRmwEdge(State([EMPTY_NODE, EMPTY_NODE], false), 0, 1) && |s.g| == 2
    ensures WellFormed(s.g) && NoReader(s.g, 0) && Merge(s, 0, 1) == Done(t, true)
    ensures |t.g| == 2 && !Ends(t.g + [EMPTY_NODE], 1, 2)
  {
    hide AddRmwEdge, Merge, Covered, Acyclic, Merged;
    s := PromiseRead();
    OwnReaderStuck(s, 0, 1, [1, 0], 2);
    MergeMeets(s, 0, 1);
    t := Merge(s, 0, 1).s;
    MergedOwn(s.g, t.g, 0, 1);
    var h := t.g + [EMPTY_NODE];
    assert h[1] == t.g[1];
    TargetsInRange(t.g, 1);
    forall n: nat
      ensures !StopsIn(h, 1, 2, n)
    {
      OwnReaderTurns(h, 1, 2, n);
    }
  }

  lemma MergedOwn(g0: Graph, g: Graph, p: nat, w: nat)
    requires p < |g0| && w < |g0| && Merged(g0, g, p, w) && g0[p].rmw == Some(w)
    ensures WellFormed(g) && |g| == |g0| && g[w].rmw == Some(w)
  {
  }

  // ----- a merge after a merge -----

  /** An edge to a node without edges closes no cycle. */
  lemma AddToSink(s: State, from: nat, to: nat)
    requires from < |s.g| && to < |s.g| && from != to && s.g[to].edges == [] && to !in s.g[from].edges
    ensures var h := PushEdge(s.g, from, to);
            var r := s.g[from].rmw;
            AddNodeEdge(s, from, to) ==
              if r.None? || ChainStop(h, r.value, to) == to then State(h, s.cyclic)
              else State(PushEdge(h, ChainStop(h, r.value, to), to), s.cyclic)
  {
    var h := PushEdge(s.g, from, to);
    assert h[to].edges == [];
    SinkReach(h, to, from);
    if h[from].rmw.Some? {
      var e := ChainStop(h, h[from].rmw.value, to);
      if e != to {
        SinkReach(PushEdge(h, e, to), to, e);
      }
    }
  }

  lemma SinkReach(g: Graph, x: nat, y: nat)
    requires x < |g| && g[x].edges == [] && x != y
    ensures !Reach(Pairs(g), x, y)
  {
    NothingAfter(g, x, y);
  }

  ghost function Five(): Graph {
    [EMPTY_NODE, EMPTY_NODE, EMPTY_NODE, EMPTY_NODE, EMPTY_NODE]
  }

  /** 1 reads from the promise 0, which comes before 2. */
  ghost function FirstRead(): Graph {
    [Node([1, 2], [], Some(1)), Node([2], [0], None), Node([], [0, 1], None), EMPTY_NODE, EMPTY_NODE]
  }

  /** And 4 reads from the promise 3. */
  ghost function BothRead(): Graph {
    [Node([1, 2], [], Some(1)), Node([2], [0], None), Node([], [0, 1], None), Node([4], [], Some(4)),
     Node([], [3], None)]
  }

  /** The promise 3 has been merged into 1. */
  ghost function OneMerged(): Graph {
    [Node([1, 2], [], Some(1)), Node([2, 4], [0], Some(4)), Node([], [0, 1], None), Node([], [], Some(4)),
     Node([], [1], None)]
  }

  lemma MakeFirst()
    ensures var s1 := AddRmwEdge(State(Five(), false), 0, 1);
            |s1.g| == 5 && AddNodeEdge(s1, 0, 2) == State(FirstRead(), false)
  {
    hide AddNodeEdge, Reach, Pairs;
    var s0 := State(Five(), false);
    var g1 := SetRmw(Five(), 0, 1);
    assert Copied(s0, 0, 1) == State(g1, false);
    ChainStopStep(PushEdge(g1, 0, 1), 1, 1);
    AddToSink(State(g1, false), 0, 1);
    var g2 := PushEdge(g1, 0, 1);
    assert AddRmwEdge(s0, 0, 1) == State(g2, false);
    assert g2[0] == Node([1], [], Some(1)) && g2[1] == Node([], [0], None);
    ChainStopStep(PushEdge(g2, 0, 2), 1, 2);
    AddToSink(State(g2, false), 0, 2);
    var g3 := PushEdge(g2, 0, 2);
    assert g3[0] == Node([1, 2], [], Some(1)) && g3[2] == Node([], [0], None);
    var g4 := PushEdge(g3, 1, 2);
    assert g4[1] == Node([2], [0], None) && g4[2] == Node([], [0, 1], None);
    assert g4 == FirstRead();
  }

  lemma MakeBoth()
    ensures AddRmwEdge(State(FirstRead(), false), 3, 4) == State(BothRead(), false)
  {
    hide AddNodeEdge, Reach, Pairs;
    var g1 := SetRmw(FirstRead(), 3, 4);
    assert Copied(State(FirstRead(), false), 3, 4) == State(g1, false);
    ChainStopStep(PushEdge(g1, 3, 4), 4, 4);
    AddToSink(State(g1, false), 3, 4);
    var g2 := PushEdge(g1, 3, 4);
    assert g2[3] == Node([4], [], Some(4)) && g2[4] == Node([], [3], None);
    assert g2 == BothRead();
  }

  lemma FiveShape()
    ensures WellFormed(Five())
  {
  }

  lemma BothShape()
    ensures var g := BothRead();
            WellFormed(g) && NoReader(g, 3) && !ReadersClash(g, 3, 1) && WellFormed(HandedOver(g, 3, 1))
  {
    hide AddRmwEdge, AddNodeEdge, WellFormed;
    assert WellFormed(Five()) by { FiveShape(); }
    AttachShape(State(Five(), false), 0, 1);
    AddNodeEdgeShape(AddRmwEdge(State(Five(), false), 0, 1), 0, 2);
    MakeFirst();
    AttachShape(State(FirstRead(), false), 3, 4);
    MakeBoth();
    HandedOverShape(BothRead(), 3, 1);
  }

  lemma MergeFirst()
    ensures WellFormed(BothRead()) && NoReader(BothRead(), 3) && WellFormed(OneMerged())
    ensures Merge(State(BothRead(), false), 3, 1) == Done(State(OneMerged(), false), true)
  {
    hide AddNodeEdge, Reach, Pairs, WellFormed;
    BothShape();
    var h := HandedOver(BothRead(), 3, 1);
    var s := State(h, false);
    assert h[3] == Node([4], [], Some(4)) && h[1] == Node([2], [0], Some(4)) && h[4] == Node([], [3], None);
    PopEdgeDrops(h, 3);
    var g1 := PopEdge(h, 3);
    assert g1[3] == Node([], [], Some(4)) && g1[4] == Node([], [], None);
    ChainStopStep(g1, 4, 4);
    ChainStopStep(PushEdge(g1, 1, 4), 4, 4);
    AddToSink(State(g1, false), 1, 4);
    var g2 := PushEdge(g1, 1, 4);
    assert g2[1] == Node([2, 4], [0], Some(4)) && g2[4] == Node([], [1], None);
    assert g2 == OneMerged();
    MovedEdgeShape(s, 3, 1);
    assert MovedEdge(s, 3, 1) == State(g2, false);
  }

  /**
   * 1 reads from the promise 0, 4 from the promise 3, and 0 comes before 2. Merging 3 into 1 succeeds; merging 0 into 4
   * then never ends: 1 and 4 read from each other, and the edge to 2 is not one of 4's.
   */
  lemma NeverAfterMerge()
    ensures var s1 := AddRmwEdge(State(Five(), false), 0, 1);
            |s1.g| == 5 && AddNodeEdge(s1, 0, 2) == State(FirstRead(), false)
    ensures AddRmwEdge(State(FirstRead(), false), 3, 4) == State(BothRead(), false)
    ensures WellFormed(BothRead()) && NoReader(BothRead(), 3)
    ensures Merge(State(BothRead(), false), 3, 1) == Done(State(OneMerged(), false), true)
    ensures WellFormed(OneMerged()) && NoReader(OneMerged(), 0) && Merge(State(OneMerged(), false), 0, 4) == Never
  {
    hide WellFormed, AddRmwEdge, Merge;
    MakeFirst();
    MakeBoth();
    MergeFirst();
    NeverSecond();
  }

  lemma NeverSecond()
    ensures WellFormed(OneMerged()) && NoReader(OneMerged(), 0)
    ensures Merge(State(OneMerged(), false), 0, 4) == Never
  {
    hide AddNodeEdge, Reach, Pairs, WellFormed;
    MergeFirst();
    var g := OneMerged();
    var h := HandedOver(g, 0, 4);
    HandedOverShape(g, 0, 4);
    PopEdgeDrops(h, 0);
    var g1 := PopEdge(h, 0);
    assert h[0] == Node([1, 2], [], Some(1)) && h[4] == Node([], [1], Some(1));
    forall n: nat
      ensures !StopsIn(g1, 1, 2, n)
    {
      RoundAndRound(g1, 1, n);
    }
    assert !Ends(g1, 4, 2);
  }

  lemma {:induction false} RoundAndRound(g: Graph, x: nat, n: nat)
    requires |g| == 5 && g[1].rmw == Some(4) && g[4].rmw == Some(1) && (x == 1 || x == 4)
    ensures !StopsIn(g, x, 2, n)
    decreases n
  {
    if n > 0 {
      RoundAndRound(g, 5 - x, n - 1);
    }
  }
}
