/** The modification-order graph: nodes with edge lists updated in place, and the graph that owns them. */
module CycleGraphs {
  import opened Relations
  import opened GraphTheory
  import opened GraphRollback
  import opened GraphMerge

  /** A node of the modification order. */
  class CycleNode {
    /** The node's place in the graph's node list. */
    const id: nat
    /** The write this node stands for; a node without one stands for a promised write. */
    var action: Option<nat>
    var edges: seq<CycleNode>
    var backEdges: seq<CycleNode>
    var hasRMW: CycleNode?

    constructor (id: nat, action: Option<nat>)
      ensures this.id == id && this.action == action
      ensures edges == [] && backEdges == [] && hasRMW == null
    {
      this.id, this.action := id, action;
      edges, backEdges, hasRMW := [], [], null;
    }

    ghost function Val(): Node
      reads this
    {
      Node(Ids(edges), Ids(backEdges), if hasRMW == null then None else Some(hasRMW.id))
    }

    method AddEdge(node: CycleNode) returns (added: bool)
      modifies this`edges, node`backEdges
      ensures added == (node !in old(edges))
      ensures edges == if added then old(edges) + [node] else old(edges)
      ensures node.backEdges == if added then old(node.backEdges) + [this] else old(node.backEdges)
    {
      for i := 0 to |edges|
        invariant node !in edges[..i]
      {
        if edges[i] == node {
          return false;
        }
      }
      edges := edges + [node];
      node.backEdges := node.backEdges + [this];
      return true;
    }

    /** Pops the last edge and takes this node out of the target's back list. */
    method RemoveEdge() returns (ret: CycleNode?)
      modifies this`edges, (set n | n in edges)`backEdges
      ensures old(edges) == [] ==> ret == null && edges == []
      ensures old(edges) != [] ==>
                && ret == old(edges)[|old(edges)| - 1]
                && edges == old(edges)[..|old(edges)| - 1]
                && ret.backEdges == Without(old(ret.backEdges), this)
      ensures forall n :: n in old(edges) && n != ret ==> n.backEdges == old(n.backEdges)
    {
      if edges == [] {
        return null;
      }
      ret := edges[|edges| - 1];
      edges := edges[..|edges| - 1];
      ret.backEdges := RemoveNode(ret.backEdges, this);
    }

    /** Pops the last back edge and takes this node out of the source's edge list. */
    method RemoveBackEdge() returns (ret: CycleNode?)
      modifies this`backEdges, (set n | n in backEdges)`edges
      ensures old(backEdges) == [] ==> ret == null && backEdges == []
      ensures old(backEdges) != [] ==>
                && ret == old(backEdges)[|old(backEdges)| - 1]
                && backEdges == old(backEdges)[..|old(backEdges)| - 1]
                && ret.edges == Without(old(ret.edges), this)
      ensures forall n :: n in old(backEdges) && n != ret ==> n.edges == old(n.edges)
    {
      if backEdges == [] {
        return null;
      }
      ret := backEdges[|backEdges| - 1];
      backEdges := backEdges[..|backEdges| - 1];
      ret.edges := RemoveNode(ret.edges, this);
    }

    /** True if another read-modify-write already reads from this node. */
    method SetRMW(node: CycleNode) returns (taken: bool)
      modifies this`hasRMW
      ensures taken == (old(hasRMW) != null)
      ensures hasRMW == if taken then old(hasRMW) else node
    {
      if hasRMW != null {
        return true;
      }
      hasRMW := node;
      return false;
    }
  }

  function Ids(s: seq<CycleNode>): (r: seq<nat>)
    ensures |r| == |s| && forall i :: 0 <= i < |s| ==> r[i] == s[i].id
  {
    seq(|s|, i requires 0 <= i < |s| => s[i].id)
  }

  lemma IdsAppend(s: seq<CycleNode>, n: CycleNode)
    ensures Ids(s + [n]) == Ids(s) + [n.id]
  {
  }

  method RemoveNode(v: seq<CycleNode>, n: CycleNode) returns (r: seq<CycleNode>)
    ensures r == Without(v, n)
  {
    for i := 0 to |v|
      invariant n !in v[..i]
    {
      if v[i] == n {
        WithoutAt(v, n, i);
        return v[..i] + v[i + 1..];
      }
    }
    assert v[..|v|] == v;
    WithoutNone(v, n);
    return v;
  }

  // ----- a list of nodes and the graph it spells -----

  ghost predicate Owns(nodes: seq<CycleNode>, n: CycleNode) {
    n.id < |nodes| && nodes[n.id] == n
  }

  ghost predicate All(nodes: seq<CycleNode>, s: seq<CycleNode>) {
    forall j :: 0 <= j < |s| ==> Owns(nodes, s[j])
  }

  lemma AllAppend(nodes: seq<CycleNode>, s: seq<CycleNode>, n: CycleNode)
    requires Owns(nodes, n)
    ensures All(nodes, s) ==> All(nodes, s + [n])
  {
  }

  /** Node numbers are list positions, and every pointer stays inside the list. */
  ghost predicate Shape(nodes: seq<CycleNode>)
    reads nodes
  {
    && (forall i {:trigger nodes[i]} :: 0 <= i < |nodes| ==> nodes[i].id == i)
    && (forall i {:trigger nodes[i].edges} :: 0 <= i < |nodes| ==> All(nodes, nodes[i].edges))
    && (forall i {:trigger nodes[i].backEdges} :: 0 <= i < |nodes| ==> All(nodes, nodes[i].backEdges))
    && (forall i {:trigger nodes[i].hasRMW} ::
          0 <= i < |nodes| && nodes[i].hasRMW != null ==> Owns(nodes, nodes[i].hasRMW))
  }

  ghost function View(nodes: seq<CycleNode>): (g: Graph)
    reads nodes
    ensures |g| == |nodes|
    ensures forall i {:trigger g[i]} :: 0 <= i < |nodes| ==> g[i] == nodes[i].Val()
  {
    seq(|nodes|, i requires 0 <= i < |nodes| reads nodes => nodes[i].Val())
  }

  /** Membership in a list of owned nodes is membership of the number. */
  lemma MemberIds(nodes: seq<CycleNode>, s: seq<CycleNode>, n: CycleNode)
    requires All(nodes, s) && Owns(nodes, n)
    ensures n in s <==> n.id in Ids(s)
  {
    if n.id in Ids(s) {
      var j :| 0 <= j < |s| && Ids(s)[j] == n.id;
      assert Owns(nodes, s[j]);
    }
    if n in s {
      var j :| 0 <= j < |s| && s[j] == n;
      assert Ids(s)[j] == n.id;
    }
  }

  lemma EdgesInRange(nodes: seq<CycleNode>)
    requires Shape(nodes)
    ensures forall i :: 0 <= i < |nodes| ==> InRange(View(nodes), View(nodes)[i].edges)
  {
    forall i, j | 0 <= i < |nodes| && 0 <= j < |nodes[i].edges|
      ensures View(nodes)[i].edges[j] < |nodes|
    {
      assert Owns(nodes, nodes[i].edges[j]);
    }
  }

  lemma ShapeAppend(nodes: seq<CycleNode>, node: CycleNode)
    requires Shape(nodes) && node.id == |nodes| && node.Val() == EMPTY_NODE
    ensures Shape(nodes + [node]) && View(nodes + [node]) == View(nodes) + [EMPTY_NODE]
  {
    var more := nodes + [node];
    forall i | 0 <= i < |more|
      ensures more[i].id == i && All(more, more[i].edges) && All(more, more[i].backEdges)
      ensures more[i].hasRMW != null ==> Owns(more, more[i].hasRMW)
    {
      if i < |nodes| {
        assert more[i] == nodes[i];
        assert All(nodes, nodes[i].edges) && All(nodes, nodes[i].backEdges);
        assert nodes[i].hasRMW != null ==> Owns(nodes, nodes[i].hasRMW);
      } else {
        assert |Ids(node.edges)| == 0 && |Ids(node.backEdges)| == 0;
      }
    }
  }

  /** Adds one edge to the lists of both ends. */
  method Link(nodes: seq<CycleNode>, from: CycleNode, to: CycleNode) returns (added: bool)
    requires Shape(nodes) && Owns(nodes, from) && Owns(nodes, to)
    modifies from`edges, to`backEdges
    ensures Shape(nodes)
    ensures View(nodes) == PushEdge(old(View(nodes)), from.id, to.id)
    ensures added == (to.id !in old(View(nodes))[from.id].edges)
  {
    hide Ids, All;
    assert All(nodes, from.edges) && All(nodes, to.backEdges) by {
      assert nodes[from.id].edges == from.edges && nodes[to.id].backEdges == to.backEdges;
    }
    MemberIds(nodes, from.edges, to);
    AllAppend(nodes, from.edges, to);
    AllAppend(nodes, to.backEdges, from);
    IdsAppend(from.edges, to);
    IdsAppend(to.backEdges, from);
    added := from.AddEdge(to);
    forall i | 0 <= i < |nodes|
      ensures View(nodes)[i] == PushEdge(old(View(nodes)), from.id, to.id)[i]
    {
      assert old(View(nodes))[i] == old(nodes[i].Val());
      if nodes[i] != from && nodes[i] != to {
        assert nodes[i].Val() == old(nodes[i].Val()) && i != from.id && i != to.id;
      }
    }
  }

  /** Depth-first search with a work list; exact. */
  method SearchNodes(nodes: seq<CycleNode>, from: CycleNode, to: CycleNode) returns (b: bool)
    requires Shape(nodes) && Owns(nodes, from) && Owns(nodes, to)
    ensures b <==> Reach(Pairs(View(nodes)), from.id, to.id)
  {
    ghost var g := View(nodes);
    EdgesInRange(nodes);
    ReachRefl(Pairs(g), from.id);
    var discovered := {from.id};
    var queue := [from.id];
    SubsetOfBelow(discovered, |g|);
    while queue != []
      invariant Searched(g, from.id, to.id, discovered, queue)
      invariant |discovered| <= |g|
      decreases |g| - |discovered|, |queue|
    {
      var last := |queue| - 1;
      var node := queue[last];
      ghost var seen, work := discovered, queue[..last];
      assert queue == work + [node] && node in queue;
      if node == to.id {
        return true;
      }
      assert Ids(nodes[node].edges) == g[node].edges;
      discovered, queue := Expand(Ids(nodes[node].edges), discovered, queue[..last]);
      SearchStep(g, from.id, to.id, seen, work, node, discovered, queue);
      SubsetOfBelow(discovered, |g|);
    }
    SearchDone(g, from.id, to.id, discovered);
    return false;
  }

  /** Follows a chain of readers to its end, or to the given node if that comes first. */
  method ChainEnd(nodes: seq<CycleNode>, start: CycleNode, to: CycleNode) returns (rmwnode: CycleNode)
    requires Shape(nodes) && Owns(nodes, start) && Owns(nodes, to) && Stops(View(nodes), start.id, to.id)
    ensures Owns(nodes, rmwnode) && rmwnode.id == ChainStop(View(nodes), start.id, to.id)
  {
    ghost var g := View(nodes);
    ghost var steps: nat :| StopsIn(g, start.id, to.id, steps);
    ghost var e := StopIn(g, start.id, to.id, steps);
    StopsSame(g, start.id, to.id, steps);
    rmwnode := start;
    assert g[rmwnode.id] == rmwnode.Val();
    while rmwnode != to && rmwnode.hasRMW != null
      invariant Owns(nodes, rmwnode) && g[rmwnode.id] == rmwnode.Val()
      invariant StopsIn(g, rmwnode.id, to.id, steps) && StopIn(g, rmwnode.id, to.id, steps) == e
      decreases steps
    {
      assert nodes[rmwnode.id].hasRMW == rmwnode.hasRMW;
      rmwnode := rmwnode.hasRMW;
      steps := steps - 1;
      assert g[rmwnode.id] == rmwnode.Val();
    }
  }

  // ----- the work-list search on node numbers -----

  /** What a search from a knows of the nodes seen so far. */
  ghost predicate Searched(g: Graph, a: nat, to: nat, discovered: set<nat>, queue: seq<nat>) {
    && a in discovered
    && (forall i :: 0 <= i < |g| ==> InRange(g, g[i].edges))
    && (forall n :: n in queue ==> n in discovered)
    && (forall n :: n in discovered ==> n < |g| && Reach(Pairs(g), a, n))
    && (forall n :: n in discovered && n !in queue ==> n != to && forall m :: m in g[n].edges ==> m in discovered)
  }

  /** Puts the undiscovered successors of a node on the work list. */
  method Expand(succs: seq<nat>, seen: set<nat>, work: seq<nat>) returns (discovered: set<nat>, queue: seq<nat>)
    ensures forall m :: m in discovered <==> m in seen || m in succs
    ensures forall m :: m in queue <==> m in work || (m in discovered && m !in seen)
    ensures |seen| <= |discovered| && |queue| - |work| == |discovered| - |seen|
  {
    discovered, queue := seen, work;
    for i := 0 to |succs|
      invariant forall m :: m in discovered <==> m in seen || m in succs[..i]
      invariant forall m :: m in queue <==> m in work || (m in discovered && m !in seen)
      invariant |seen| <= |discovered| && |queue| - |work| == |discovered| - |seen|
    {
      if succs[i] !in discovered {
        discovered := discovered + {succs[i]};
        queue := queue + [succs[i]];
      }
    }
  }

  lemma SearchStep(g: Graph, a: nat, to: nat, seen: set<nat>, work: seq<nat>, node: nat,
                   discovered: set<nat>, queue: seq<nat>)
    requires Searched(g, a, to, seen, work + [node]) && node != to && node < |g|
    requires forall m :: m in discovered <==> m in seen || m in g[node].edges
    requires forall m :: m in queue <==> m in work || (m in discovered && m !in seen)
    ensures Searched(g, a, to, discovered, queue)
  {
    assert node in work + [node];
    forall n | n in discovered
      ensures n < |g| && Reach(Pairs(g), a, n)
    {
      if n in g[node].edges {
        ReachPair(Pairs(g), node, n);
        ReachTrans(Pairs(g), a, node, n);
      }
    }
    forall n | n in discovered && n !in queue
      ensures n != to && forall m :: m in g[n].edges ==> m in discovered
    {
      assert n == node || n !in work + [node];
    }
  }

  lemma SearchDone(g: Graph, a: nat, to: nat, discovered: set<nat>)
    requires Searched(g, a, to, discovered, [])
    ensures !Reach(Pairs(g), a, to)
  {
    if Reach(Pairs(g), a, to) {
      ReachClosed(Pairs(g), discovered, a, to);
    }
  }

  /** Pops the last edge of a node on both sides. */
  method Unlink(nodes: seq<CycleNode>, n: CycleNode) returns (to: CycleNode)
    requires Shape(nodes) && Owns(nodes, n) && n.edges != []
    modifies n`edges, (set m | m in n.edges)`backEdges
    ensures Shape(nodes) && Owns(nodes, to) && to == old(n.edges)[|old(n.edges)| - 1]
    ensures View(nodes) == PopEdge(old(View(nodes)), n.id)
  {
    ghost var last := |n.edges| - 1;
    assert nodes[n.id].edges == n.edges && Owns(nodes, n.edges[last]);
    ghost var bs := n.edges[last].backEdges;
    assert All(nodes, nodes[n.edges[last].id].backEdges);
    WithoutIds(nodes, bs, n);
    to := n.RemoveEdge();
    assert Ids(n.edges) == old(Ids(n.edges))[..last];
    forall i | 0 <= i < |nodes|
      ensures View(nodes)[i] == PopEdge(old(View(nodes)), n.id)[i]
    {
      assert old(View(nodes))[i] == old(nodes[i].Val());
      assert nodes[i] in old(n.edges) || nodes[i] == n || nodes[i].Val() == old(nodes[i].Val());
    }
  }

  /** Pops the last back edge of a node on both sides. */
  method UnlinkBack(nodes: seq<CycleNode>, n: CycleNode) returns (from: CycleNode)
    requires Shape(nodes) && Owns(nodes, n) && n.backEdges != []
    modifies n`backEdges, (set m | m in n.backEdges)`edges
    ensures Shape(nodes) && Owns(nodes, from) && from == old(n.backEdges)[|old(n.backEdges)| - 1]
    ensures View(nodes) == PopBack(old(View(nodes)), n.id)
  {
    ghost var last := |n.backEdges| - 1;
    assert nodes[n.id].backEdges == n.backEdges && Owns(nodes, n.backEdges[last]);
    ghost var es := n.backEdges[last].edges;
    assert All(nodes, nodes[n.backEdges[last].id].edges);
    WithoutIds(nodes, es, n);
    from := n.RemoveBackEdge();
    assert Ids(n.backEdges) == old(Ids(n.backEdges))[..last];
    forall i | 0 <= i < |nodes|
      ensures View(nodes)[i] == PopBack(old(View(nodes)), n.id)[i]
    {
      assert old(View(nodes))[i] == old(nodes[i].Val());
      assert nodes[i] in old(n.backEdges) || nodes[i] == n || nodes[i].Val() == old(nodes[i].Val());
    }
  }

  lemma {:induction false} WithoutIds(nodes: seq<CycleNode>, v: seq<CycleNode>, n: CycleNode)
    requires All(nodes, v) && Owns(nodes, n)
    ensures All(nodes, Without(v, n)) && Ids(Without(v, n)) == Without(Ids(v), n.id)
  {
    if v != [] {
      assert Owns(nodes, v[0]);
      assert Ids(v) == [v[0].id] + Ids(v[1..]);
      if v[0] != n {
        WithoutIds(nodes, v[1..], n);
      } else {
        assert Ids(v)[1..] == Ids(v[1..]);
      }
    }
  }

  /** What a reader's call makes of the graph, and what it appends to the two logs. */
  ghost predicate ReaderCall(s: State, t: State, f: nat, r: nat, logs: (seq<nat>, seq<nat>),
                             logs': (seq<nat>, seq<nat>)) {
    && f < |s.g| && r < |s.g| && InRange(s.g, s.g[f].edges)
    && t == AddRmwEdge(s, f, r)
    && logs' == (logs.0 + RmwEdgeLog(s, f, r), logs.1 + if s.g[f].rmw.Some? then [] else [f])
  }

  class CycleGraph {
    var nodeList: seq<CycleNode>
    var hasCycles: bool
    var oldCycles: bool
    var rollbackvector: seq<CycleNode>
    var rmwrollbackvector: seq<CycleNode>

    var actionToNode: map<nat, CycleNode>
    var promiseToNode: map<nat, CycleNode>

    ghost predicate Maps()
      reads this`nodeList, this`actionToNode, this`promiseToNode, (set n | n in nodeList)`action
    {
      && (forall a :: a in actionToNode ==> Owns(nodeList, actionToNode[a]) && actionToNode[a].action == Some(a))
      && (forall p :: p in promiseToNode ==> Owns(nodeList, promiseToNode[p]) && promiseToNode[p].action == None)
    }

    ghost function Now(): State
      reads this, nodeList
    {
      State(View(nodeList), hasCycles)
    }

    ghost function Logs(): (seq<nat>, seq<nat>)
      reads this
    {
      (Ids(rollbackvector), Ids(rmwrollbackvector))
    }

    ghost predicate Valid()
      reads this, nodeList
    {
      && Shape(nodeList) && WellFormed(View(nodeList))
      && All(nodeList, rollbackvector) && All(nodeList, rmwrollbackvector)
      && Maps()
    }

    constructor ()
      ensures Valid() && Now() == State([], false) && rollbackvector == [] && rmwrollbackvector == [] && !oldCycles
    {
      nodeList, hasCycles, oldCycles, rollbackvector, rmwrollbackvector := [], false, false, [], [];
      actionToNode, promiseToNode := map[], map[];
      new;
      assert View(nodeList) == [];
    }

    /** The node of an action, created on first use. */
    method GetNode(action: nat) returns (node: CycleNode)
      requires Valid()
      modifies this`nodeList, this`actionToNode
      ensures Valid() && Owns(nodeList, node) && action in actionToNode && actionToNode[action] == node
      ensures old(nodeList) <= nodeList && forall n :: n in nodeList ==> n in old(nodeList) || fresh(n)
      ensures actionToNode == old(actionToNode)[action := node]
      ensures |nodeList| == |old(nodeList)| + if action in old(actionToNode) then 0 else 1
      ensures View(nodeList) == Padded(old(View(nodeList)), |nodeList| - |old(nodeList)|)
      ensures if action in old(actionToNode) then node == old(actionToNode)[action] else node.id == |old(nodeList)|
    {
      hide WellFormed;
      if action in actionToNode {
        node := actionToNode[action];
      } else {
        PaddedWellFormed(View(nodeList), 1);
        node := NewNode(Some(action));
        actionToNode := actionToNode[action := node];
      }
    }

    method NewNode(action: Option<nat>) returns (node: CycleNode)
      requires Shape(nodeList)
      modifies this`nodeList
      ensures Shape(nodeList)
      ensures fresh(node) && node.id == |old(nodeList)| && node.action == action
      ensures nodeList == old(nodeList) + [node]
      ensures View(nodeList) == Padded(old(View(nodeList)), 1)
    {
      node := new CycleNode(|nodeList|, action);
      ShapeAppend(nodeList, node);
      assert Padded(View(nodeList), 1) == Padded(View(nodeList), 0) + [EMPTY_NODE];
      nodeList := nodeList + [node];
    }

    /** Adds one edge, logs it, and looks for a cycle through it unless one is known. */
    method LinkChecked(from: CycleNode, to: CycleNode) returns (added: bool)
      requires Shape(nodeList) && Owns(nodeList, from) && Owns(nodeList, to)
      modifies this`hasCycles, this`rollbackvector, from`edges, to`backEdges
      ensures Shape(nodeList)
      ensures added == (to.id !in old(View(nodeList))[from.id].edges)
      ensures View(nodeList) == PushEdge(old(View(nodeList)), from.id, to.id)
      ensures hasCycles == (old(hasCycles) || (added && Reach(Pairs(View(nodeList)), to.id, from.id)))
      ensures rollbackvector == if added then old(rollbackvector) + [from] else old(rollbackvector)
    {
      added := Link(nodeList, from, to);
      if added {
        rollbackvector := rollbackvector + [from];
        if !hasCycles {
          hasCycles := SearchNodes(nodeList, to, from);
        }
      }
    }

    /** Adds an edge and, behind a reader, the edge at the end of the reader's chain. */
    method AddNodeEdge(from: CycleNode, to: CycleNode) returns (added: bool)
      requires Shape(nodeList) && Owns(nodeList, from) && Owns(nodeList, to) && Ends(View(nodeList), from.id, to.id)
      modifies this`hasCycles, this`rollbackvector
      modifies (set n | n in nodeList)`edges, (set n | n in nodeList)`backEdges
      ensures Shape(nodeList)
      ensures added == (to.id !in old(View(nodeList))[from.id].edges)
      ensures State(View(nodeList), hasCycles) ==
              GraphTheory.AddNodeEdge(State(old(View(nodeList)), old(hasCycles)), from.id, to.id)
      ensures Ids(rollbackvector) == old(Ids(rollbackvector)) + EdgeLog(old(View(nodeList)), from.id, to.id)
      ensures old(All(nodeList, rollbackvector)) ==> All(nodeList, rollbackvector)
    {
      hide PushEdge, ChainStep, ChainLog, Shape, View, All, Ids, Stops;
      AllAppend(nodeList, rollbackvector, from);
      ghost var g0, log := View(nodeList), rollbackvector;
      PushEnds(g0, from.id, to.id);
      IdsAppend(log, from);
      added := LinkChecked(from, to);
      ghost var g1 := View(nodeList);
      if added {
        AddChainEdge(from, to);
        Assoc(Ids(log), [from.id], ChainLog(g1, from.id, to.id));
      } else {
        assert Ids(log) + [] == Ids(log);
      }
    }

    /** The edge from the end of the chain of readers behind a write. */
    method AddChainEdge(from: CycleNode, to: CycleNode)
      requires Shape(nodeList) && Owns(nodeList, from) && Owns(nodeList, to)
      requires from.hasRMW != null ==> Stops(View(nodeList), from.hasRMW.id, to.id)
      modifies this`hasCycles, this`rollbackvector
      modifies (set n | n in nodeList)`edges, (set n | n in nodeList)`backEdges
      ensures Shape(nodeList)
      ensures State(View(nodeList), hasCycles) == ChainStep(State(old(View(nodeList)), old(hasCycles)),
                                                            from.id, to.id)
      ensures Ids(rollbackvector) == old(Ids(rollbackvector)) + ChainLog(old(View(nodeList)), from.id, to.id)
      ensures old(All(nodeList, rollbackvector)) ==> All(nodeList, rollbackvector)
    {
      hide All;
      ghost var g := View(nodeList);
      assert g[from.id] == from.Val();
      if from.hasRMW != null {
        assert nodeList[from.id].hasRMW == from.hasRMW;
        var rmwnode := ChainEnd(nodeList, from.hasRMW, to);
        ghost var e := rmwnode.id;
        if rmwnode != to {
          ghost var log := rollbackvector;
          var more := LinkChecked(rmwnode, to);
          IdsAppend(log, rmwnode);
          AllAppend(nodeList, log, rmwnode);
        } else {
          assert e == to.id;
        }
      }
    }

    /** The number of an action's node, or the number its node would get. */
    ghost function NodeOf(action: nat): nat
      reads this
    {
      if action in actionToNode then actionToNode[action].id else |nodeList|
    }

    /** Orders one action before another, in every graph in which that comes to an end. */
    method AddEdge(from: nat, to: nat) returns (added: bool)
      requires Valid() && (from in actionToNode ==> Ends(View(nodeList), NodeOf(from), NodeOf(to)))
      modifies this`nodeList, this`actionToNode, this`hasCycles, this`rollbackvector
      modifies (set n | n in nodeList)`edges, (set n | n in nodeList)`backEdges
      ensures Valid() && |old(nodeList)| <= |nodeList|
      ensures from in actionToNode && to in actionToNode
      ensures var k := |nodeList| - |old(nodeList)|;
              var s := State(Padded(old(View(nodeList)), k), old(hasCycles));
              var f, t := actionToNode[from].id, actionToNode[to].id;
              && f < |s.g| && t < |s.g| && added == (t !in s.g[f].edges)
              && Now() == GraphTheory.AddNodeEdge(s, f, t)
              && Ids(rollbackvector) == old(Ids(rollbackvector)) + EdgeLog(s.g, f, t)
    {
      hide WellFormed, PushEdge, GraphTheory.AddNodeEdge, EdgeLog, All, Shape, View, Padded, Ids, Ends, Maps;
      ghost var g := View(nodeList);
      var fromnode, tonode := GetNodes(from, to);
      PaddedEnds(g, |nodeList| - |g|, fromnode.id, tonode.id);
      AddNodeEdgeShape(Now(), fromnode.id, tonode.id);
      added := AddNodeEdge(fromnode, tonode);
    }

    /** The nodes of two actions. */
    method GetNodes(a: nat, b: nat) returns (na: CycleNode, nb: CycleNode)
      requires Valid()
      modifies this`nodeList, this`actionToNode
      ensures Valid() && Owns(nodeList, na) && Owns(nodeList, nb)
      ensures old(nodeList) <= nodeList && forall n :: n in nodeList ==> n in old(nodeList) || fresh(n)
      ensures a in actionToNode && actionToNode[a] == na && b in actionToNode && actionToNode[b] == nb
      ensures View(nodeList) == Padded(old(View(nodeList)), |nodeList| - |old(nodeList)|)
      ensures if a in old(actionToNode) then na.id == old(NodeOf(a)) && nb.id == old(NodeOf(b))
              else na.id >= |old(nodeList)|
      ensures if b in old(actionToNode) then nb == old(actionToNode)[b] else a != b ==> nb.id >= |old(nodeList)|
    {
      hide WellFormed, Shape, View, Padded, All;
      ghost var n, g := |nodeList|, View(nodeList);
      na := GetNode(a);
      ghost var n1 := |nodeList|;
      nb := GetNode(b);
      PaddedTwice(g, n1 - n, |nodeList| - n1);
    }

    /** One edge for the reader, logged but not checked for a cycle. */
    method CopyOne(rmw: CycleNode, tonode: CycleNode)
      requires Shape(nodeList) && Owns(nodeList, rmw) && Owns(nodeList, tonode)
      modifies this`rollbackvector, rmw`edges, tonode`backEdges
      ensures Shape(nodeList) && View(nodeList) == PushEdge(old(View(nodeList)), rmw.id, tonode.id)
      ensures Ids(rollbackvector) == old(Ids(rollbackvector))
                + (if tonode.id in old(View(nodeList))[rmw.id].edges then [] else [rmw.id])
      ensures old(All(nodeList, rollbackvector)) ==> All(nodeList, rollbackvector)
    {
      hide Shape, View, PushEdge, All, Ids;
      IdsAppend(rollbackvector, rmw);
      AllAppend(nodeList, rollbackvector, rmw);
      assert Ids(rollbackvector) + [] == Ids(rollbackvector);
      var added := Link(nodeList, rmw, tonode);
      if added {
        rollbackvector := rollbackvector + [rmw];
      }
    }

    /** Gives a new reader the outgoing edges of its write. */
    method CopyOut(from: CycleNode, rmw: CycleNode)
      requires Shape(nodeList) && Owns(nodeList, from) && Owns(nodeList, rmw) && from != rmw
      modifies this`rollbackvector, rmw`edges, (set n | n in nodeList)`backEdges
      ensures Shape(nodeList)
      ensures InRange(old(View(nodeList)), old(View(nodeList))[from.id].edges)
      ensures View(nodeList) == CopyEdges(old(View(nodeList)), rmw.id, old(View(nodeList))[from.id].edges)
      ensures Ids(rollbackvector) == old(Ids(rollbackvector)) + CopyLog(old(View(nodeList)), rmw.id,
                old(View(nodeList))[from.id].edges)
      ensures old(All(nodeList, rollbackvector)) ==> All(nodeList, rollbackvector)
    {
      hide CopyEdges, CopyLog, PushEdge, View, Ids;
      EdgesInRange(nodeList);
      ghost var g0, ts, log := View(nodeList), Ids(from.edges), Ids(rollbackvector);
      assert g0[from.id] == from.Val();
      assert ts[0..] == ts;
      for i := 0 to |from.edges|
        invariant Shape(nodeList) && from.edges == old(from.edges)
        invariant InRange(View(nodeList), ts[i..])
        invariant CopyEdges(View(nodeList), rmw.id, ts[i..]) == CopyEdges(g0, rmw.id, ts)
        invariant Ids(rollbackvector) + CopyLog(View(nodeList), rmw.id, ts[i..]) == log + CopyLog(g0, rmw.id, ts)
        invariant old(All(nodeList, rollbackvector)) ==> All(nodeList, rollbackvector)
      {
        var tonode := from.edges[i];
        assert nodeList[from.id].edges == from.edges && Owns(nodeList, from.edges[i]);
        CopyUnfold(View(nodeList), rmw.id, ts, i, Ids(rollbackvector));
        if tonode != rmw {
          CopyOne(rmw, tonode);
        }
      }
      CopyUnfoldEnd(View(nodeList), rmw.id, Ids(rollbackvector));
    }

    /** Makes one action the read-modify-write that reads from another, where that comes to an end. */
    method AddRMWEdge(from: nat, rmw: nat)
      requires Valid() && from != rmw && (from in actionToNode ==> Ends(View(nodeList), NodeOf(from), NodeOf(rmw)))
      requires rmw in actionToNode ==> Unread(View(nodeList), actionToNode[rmw].id)
      modifies this, nodeList
      ensures Valid() && |old(nodeList)| <= |nodeList|
      ensures from in actionToNode && rmw in actionToNode
      ensures var k := |nodeList| - |old(nodeList)|;
              var s := State(Padded(old(View(nodeList)), k), old(hasCycles));
              ReaderCall(s, Now(), actionToNode[from].id, actionToNode[rmw].id, old(Logs()), Logs())
    {
      hide WellFormed, PushEdge, GraphTheory.AddNodeEdge, AddRmwEdge, EdgeLog, All, Shape, View, Padded, Ids, Ends;
      ghost var g := View(nodeList);
      var fromnode, rmwnode := GetNodes(from, rmw);
      assert fromnode in nodeList;
      PaddedUnread(g, |nodeList| - |g|, rmwnode.id);
      PaddedEnds(g, |nodeList| - |g|, fromnode.id, rmwnode.id);
      AttachReader(fromnode, rmwnode);
    }

    /** Sets the reader of a write, unless it has one. */
    method SetReader(fromnode: CycleNode, rmwnode: CycleNode)
      requires Shape(nodeList) && Owns(nodeList, fromnode) && Owns(nodeList, rmwnode)
      modifies this`hasCycles, this`rmwrollbackvector, fromnode`hasRMW
      ensures Shape(nodeList)
      ensures var g := old(View(nodeList));
              && View(nodeList) == Attached(g, fromnode.id, rmwnode.id)
              && hasCycles == (old(hasCycles) || g[fromnode.id].rmw.Some?)
              && rmwrollbackvector == old(rmwrollbackvector) + (if g[fromnode.id].rmw.Some? then [] else [fromnode])
    {
      var taken := fromnode.SetRMW(rmwnode);
      if taken {
        hasCycles := true;
      } else {
        rmwrollbackvector := rmwrollbackvector + [fromnode];
      }
      ghost var g := old(View(nodeList));
      assert g[fromnode.id] == old(fromnode.Val());
      forall i | 0 <= i < |nodeList|
        ensures View(nodeList)[i] == Attached(g, fromnode.id, rmwnode.id)[i]
      {
        assert g[i] == old(nodeList[i].Val());
      }
    }

    /** Sets the reader, copies the write's edges to it, and orders it after the write. */
    method AttachReader(fromnode: CycleNode, rmwnode: CycleNode)
      requires Valid() && Owns(nodeList, fromnode) && Owns(nodeList, rmwnode) && fromnode != rmwnode
      requires Unread(View(nodeList), rmwnode.id) && Ends(View(nodeList), fromnode.id, rmwnode.id)
      modifies this`hasCycles, this`rollbackvector, this`rmwrollbackvector
      modifies (set n | n in nodeList)`edges, (set n | n in nodeList)`backEdges, fromnode`hasRMW
      ensures Valid()
      ensures ReaderCall(old(Now()), Now(), fromnode.id, rmwnode.id, old(Logs()), Logs())
    {
      hide WellFormed, PushEdge, GraphTheory.AddNodeEdge, EdgeLog, View, CopyEdges, CopyLog, Shape, All, Ids,
           AttachLog, Copied, Attached, Ends;
      ghost var s, log := Now(), Ids(rollbackvector);
      AttachShape(s, fromnode.id, rmwnode.id);
      CopyToReader(fromnode, rmwnode);
      var _ := AddNodeEdge(fromnode, rmwnode);
      Assoc(log, AttachLog(s.g, fromnode.id, rmwnode.id),
            EdgeLog(Copied(s, fromnode.id, rmwnode.id).g, fromnode.id, rmwnode.id));
    }

    /** Sets the reader and copies the write's edges to it. */
    method CopyToReader(fromnode: CycleNode, rmwnode: CycleNode)
      requires Shape(nodeList) && Owns(nodeList, fromnode) && Owns(nodeList, rmwnode) && fromnode != rmwnode
      requires All(nodeList, rollbackvector) && All(nodeList, rmwrollbackvector)
      requires InRange(View(nodeList), View(nodeList)[fromnode.id].edges)
      modifies this`hasCycles, this`rollbackvector, this`rmwrollbackvector
      modifies rmwnode`edges, (set n | n in nodeList)`backEdges, fromnode`hasRMW
      ensures Shape(nodeList) && All(nodeList, rollbackvector) && All(nodeList, rmwrollbackvector)
      ensures var s, f, r := old(Now()), fromnode.id, rmwnode.id;
              && Now() == Copied(s, f, r)
              && Ids(rollbackvector) == old(Ids(rollbackvector)) + AttachLog(s.g, f, r)
              && Ids(rmwrollbackvector) == old(Ids(rmwrollbackvector)) + (if s.g[f].rmw.Some? then [] else [f])
    {
      hide View, CopyEdges, CopyLog, Shape, All, Ids;
      AllAppend(nodeList, rmwrollbackvector, fromnode);
      assert rmwrollbackvector + [] == rmwrollbackvector;
      IdsAppend(rmwrollbackvector, fromnode);
      SetReader(fromnode, rmwnode);
      CopyOut(fromnode, rmwnode);
    }

    method PopLoggedEdges()
      requires Valid()
      modifies (set n | n in nodeList)`edges, (set n | n in nodeList)`backEdges
      ensures Valid() && View(nodeList) == UndoEdges(old(View(nodeList)), Ids(rollbackvector))
    {
      hide WellFormed, View, UndoEdges, PopLogged;
      ghost var g, log := View(nodeList), Ids(rollbackvector);
      assert log[0..] == log;
      for i := 0 to |rollbackvector|
        invariant Shape(nodeList) && WellFormed(View(nodeList))
        invariant UndoEdges(View(nodeList), log[i..]) == UndoEdges(g, log)
      {
        var n := rollbackvector[i];
        assert Owns(nodeList, rollbackvector[i]);
        UndoUnfold(View(nodeList), log, i);
        PopNode(n);
      }
      assert log[|rollbackvector|..] == [];
      UndoEnd(View(nodeList));
    }

    /** Removing an edge from a node that has none does nothing. */
    method PopNode(n: CycleNode)
      requires Shape(nodeList) && Owns(nodeList, n)
      modifies (set m | m in nodeList)`edges, (set m | m in nodeList)`backEdges
      ensures Shape(nodeList) && View(nodeList) == PopLogged(old(View(nodeList)), n.id)
    {
      EdgesInRange(nodeList);
      assert View(nodeList)[n.id] == n.Val();
      if n.edges != [] {
        assert nodeList[n.id].edges == n.edges;
        forall m | m in n.edges
          ensures m in nodeList
        {
          var j :| 0 <= j < |n.edges| && n.edges[j] == m;
          assert Owns(nodeList, n.edges[j]);
        }
        var _ := Unlink(nodeList, n);
      }
    }

    method ClearLoggedReaders()
      requires Valid()
      modifies (set n | n in nodeList)`hasRMW
      ensures Valid() && View(nodeList) == UndoReaders(old(View(nodeList)), Ids(rmwrollbackvector))
    {
      hide WellFormed, UndoReaders, View;
      ghost var g, log := View(nodeList), Ids(rmwrollbackvector);
      assert log[0..] == log;
      for i := 0 to |rmwrollbackvector|
        invariant Shape(nodeList) && WellFormed(View(nodeList))
        invariant UndoReaders(View(nodeList), log[i..]) == UndoReaders(g, log)
      {
        var n := rmwrollbackvector[i];
        assert Owns(nodeList, rmwrollbackvector[i]);
        ghost var h := View(nodeList);
        ClearUnfold(h, log, i);
        ClearReader(n);
      }
      assert log[|rmwrollbackvector|..] == [];
      UndoEnd(View(nodeList));
    }

    method ClearReader(n: CycleNode)
      requires Shape(nodeList) && Owns(nodeList, n)
      modifies n`hasRMW
      ensures Shape(nodeList) && View(nodeList) == ClearRmw(old(View(nodeList)), n.id)
    {
      ghost var g := View(nodeList);
      n.hasRMW := null;
      assert g[n.id] == old(n.Val());
      forall j | 0 <= j < |nodeList|
        ensures View(nodeList)[j] == ClearRmw(g, n.id)[j]
      {
        assert g[j] == old(nodeList[j].Val());
      }
    }

    method CommitChanges()
      requires Valid()
      modifies this`rollbackvector, this`rmwrollbackvector, this`oldCycles
      ensures Valid() && rollbackvector == [] && rmwrollbackvector == [] && oldCycles == hasCycles
    {
      rollbackvector, rmwrollbackvector := [], [];
      oldCycles := hasCycles;
    }

    /** Pops the logged edges and clears the logged readers. */
    method RollbackChanges()
      requires Valid()
      modifies this`rollbackvector, this`rmwrollbackvector, this`hasCycles
      modifies (set n | n in nodeList)`edges, (set n | n in nodeList)`backEdges, (set n | n in nodeList)`hasRMW
      ensures Valid() && rollbackvector == [] && rmwrollbackvector == []
      ensures Now() == State(UndoReaders(UndoEdges(old(View(nodeList)), old(Ids(rollbackvector))),
                                         old(Ids(rmwrollbackvector))), oldCycles)
    {
      hide WellFormed, Shape, View, UndoEdges, UndoReaders;
      PopLoggedEdges();
      ClearLoggedReaders();
      hasCycles := oldCycles;
      rollbackvector, rmwrollbackvector := [], [];
    }

    // ----- resolving promises -----

    /** Moves the last back edge of a promise node to a write node. */
    method MoveBackEdge(p: CycleNode, w: CycleNode) returns (moved: bool)
      requires Valid() && Owns(nodeList, p) && Owns(nodeList, w) && p != w && p.backEdges != []
      requires BackEnds(View(nodeList), p.id, w.id)
      modifies this`hasCycles, this`rollbackvector
      modifies (set n | n in nodeList)`edges, (set n | n in nodeList)`backEdges
      ensures Valid() && Now() == MovedBack(old(Now()), p.id, w.id)
      ensures moved == (old(p.backEdges)[|old(p.backEdges)| - 1] != w)
    {
      hide WellFormed, PopBack, GraphTheory.AddNodeEdge, Dropped, Ends, Shape;
      ghost var s := Now();
      assert s.g[p.id] == p.Val();
      MovedBackShape(s, p.id, w.id);
      BackOwned(nodeList, p);
      var back := UnlinkBack(nodeList, p);
      moved := back != w;
      if moved {
        var _ := AddNodeEdge(back, w);
      }
    }

    /** Moves the last forward edge of a promise node to a write node. */
    method MoveEdge(p: CycleNode, w: CycleNode) returns (moved: bool)
      requires Valid() && Owns(nodeList, p) && Owns(nodeList, w) && p != w && p.edges != []
      requires NoReader(View(nodeList), p.id) && EdgeEnds(View(nodeList), p.id, w.id)
      modifies this`hasCycles, this`rollbackvector
      modifies (set n | n in nodeList)`edges, (set n | n in nodeList)`backEdges
      ensures Valid() && Now() == MovedEdge(old(Now()), p.id, w.id)
      ensures moved == (old(p.edges)[|old(p.edges)| - 1] != w)
    {
      hide WellFormed, PopEdge, GraphTheory.AddNodeEdge, Dropped, Ends, Shape, All, View, Maps;
      ghost var s := Now();
      assert s.g[p.id] == p.Val();
      MovedEdgeShape(s, p.id, w.id);
      BackOwned(nodeList, p);
      var forward := Unlink(nodeList, p);
      moved := forward != w;
      if moved {
        var _ := AddNodeEdge(w, forward);
      }
    }

    /** Moves all back edges; false as soon as one closes a cycle. */
    method TransferBack(p: CycleNode, w: CycleNode) returns (ok: bool)
      requires Valid() && Owns(nodeList, p) && Owns(nodeList, w) && p != w
      requires BackMoves(Now(), p.id, w.id) != Never
      modifies this`hasCycles, this`rollbackvector
      modifies (set n | n in nodeList)`edges, (set n | n in nodeList)`backEdges
      ensures Valid() && Done(Now(), ok) == BackMoves(old(Now()), p.id, w.id)
    {
      hide WellFormed, MovedBack, Shape, All, BackEnds, Maps;
      ghost var m := BackMoves(Now(), p.id, w.id);
      while p.backEdges != []
        invariant Valid() && BackMoves(Now(), p.id, w.id) == m
        decreases |Now().g[p.id].back|
      {
        assert Now().g[p.id] == p.Val();
        MovedBackShape(Now(), p.id, w.id);
        ghost var y := p.backEdges[|p.backEdges| - 1];
        assert Owns(nodeList, y) by { BackOwned(nodeList, p); }
        var moved := MoveBackEdge(p, w);
        if moved && hasCycles {
          return false;
        }
      }
      assert Now().g[p.id] == p.Val();
      return true;
    }

    /** Moves all forward edges; false as soon as one closes a cycle. */
    method TransferEdges(p: CycleNode, w: CycleNode) returns (ok: bool)
      requires Valid() && Owns(nodeList, p) && Owns(nodeList, w) && p != w && NoReader(View(nodeList), p.id)
      requires EdgeMoves(Now(), p.id, w.id) != Never
      modifies this`hasCycles, this`rollbackvector
      modifies (set n | n in nodeList)`edges, (set n | n in nodeList)`backEdges
      ensures Valid() && Done(Now(), ok) == EdgeMoves(old(Now()), p.id, w.id)
    {
      hide WellFormed, MovedEdge, Shape, All, EdgeEnds, Maps;
      ghost var m := EdgeMoves(Now(), p.id, w.id);
      while p.edges != []
        invariant Valid() && NoReader(View(nodeList), p.id) && EdgeMoves(Now(), p.id, w.id) == m
        decreases |Now().g[p.id].edges|
      {
        assert Now().g[p.id] == p.Val();
        MovedEdgeShape(Now(), p.id, w.id);
        ghost var y := p.edges[|p.edges| - 1];
        assert Owns(nodeList, y) by { BackOwned(nodeList, p); }
        var moved := MoveEdge(p, w);
        if moved && hasCycles {
          return false;
        }
      }
      assert Now().g[p.id] == p.Val();
      return true;
    }

    /** Hands the promise's reader to the write; true if the write has another one. */
    method TransferReader(p: CycleNode, w: CycleNode) returns (clash: bool)
      requires Valid() && Owns(nodeList, p) && Owns(nodeList, w) && p != w
      modifies w`hasRMW
      ensures Valid() && clash == ReadersClash(old(View(nodeList)), p.id, w.id)
      ensures View(nodeList) == if clash then old(View(nodeList)) else HandedOver(old(View(nodeList)), p.id, w.id)
    {
      hide WellFormed;
      ghost var g := View(nodeList);
      HandedOverShape(g, p.id, w.id);
      assert g[p.id] == p.Val() && g[w.id] == w.Val();
      var rmw := p.hasRMW;
      assert nodeList[p.id].hasRMW == rmw;
      assert nodeList[w.id].hasRMW == w.hasRMW;
      clash := false;
      if rmw != null && rmw != w.hasRMW {
        clash := w.SetRMW(rmw);
        forall i | 0 <= i < |nodeList|
          ensures View(nodeList)[i] == Attached(g, w.id, rmw.id)[i]
        {
          assert g[i] == old(nodeList[i].Val());
        }
        assert View(nodeList) == Attached(g, w.id, rmw.id);
      }
    }

    /** Moves back edges, then forward edges. */
    method TransferAll(p: CycleNode, w: CycleNode) returns (ok: bool)
      requires Valid() && Owns(nodeList, p) && Owns(nodeList, w) && p != w && NoReader(View(nodeList), p.id)
      requires AllMoves(Now(), p.id, w.id) != Never
      modifies this`hasCycles, this`rollbackvector
      modifies (set n | n in nodeList)`edges, (set n | n in nodeList)`backEdges
      ensures Valid() && Done(Now(), ok) == AllMoves(old(Now()), p.id, w.id)
    {
      hide WellFormed, Shape, All, BackMoves, EdgeMoves, View, Maps;
      BackMovesShape(Now(), p.id, w.id);
      ok := TransferBack(p, w);
      if ok {
        ok := TransferEdges(p, w);
        ok := ok && !hasCycles;
      }
    }

    /**
     * Merges a promise node into the node of the write that fulfils it, wherever that comes to an end. A merge that
     * succeeds has taken the promise's edges and reader over, without a cycle.
     */
    method MergeNodes(w: CycleNode, p: CycleNode, promise: nat, compatible: bool) returns (ok: bool)
      requires Valid() && Owns(nodeList, p) && Owns(nodeList, w) && p != w
      requires w.action.Some? && p.action == None && NoReader(View(nodeList), p.id)
      requires compatible ==> Merge(Now(), p.id, w.id) != Never
      modifies this`hasCycles, this`rollbackvector, this`promiseToNode, w`hasRMW
      modifies (set n | n in nodeList)`edges, (set n | n in nodeList)`backEdges
      ensures Valid()
      ensures Done(Now(), ok) == if compatible then Merge(old(Now()), p.id, w.id) else Done(old(Now()), false)
      ensures ok && old(!hasCycles ==> Acyclic(Pairs(View(nodeList)))) ==>
                !hasCycles && Merged(old(View(nodeList)), View(nodeList), p.id, w.id)
      ensures promiseToNode == if ok then old(promiseToNode) - {promise} else old(promiseToNode)
    {
      hide WellFormed, Shape, All, AllMoves, View, Merged, Pairs, Acyclic, NoReader;
      if !compatible {
        return false;
      }
      ghost var s := Now();
      HandedOverShape(s.g, p.id, w.id);
      if s.cyclic || Acyclic(Pairs(s.g)) {
        MergeMeets(s, p.id, w.id);
      }
      var clash := TransferReader(p, w);
      if clash {
        return false;
      }
      ok := TransferAll(p, w);
      if ok {
        promiseToNode := promiseToNode - {promise};
      }
    }

    /** Fulfils a promise: merges its node into the write's, or turns it into the write's node. */
    method ResolvePromise(promise: nat, writer: nat, compatible: bool) returns (ok: bool)
      requires Valid() && promise in promiseToNode
      requires NoReader(View(nodeList), promiseToNode[promise].id)
      requires writer in actionToNode && compatible ==>
                 Merge(Now(), promiseToNode[promise].id, actionToNode[writer].id) != Never
      requires forall q :: q in promiseToNode && q != promise ==> promiseToNode[q] != promiseToNode[promise]
      modifies this, nodeList
      ensures Valid() && nodeList == old(nodeList)
      ensures writer in actionToNode && (writer in old(actionToNode) ==> actionToNode == old(actionToNode))
      ensures writer in old(actionToNode) ==>
                var p, w := old(promiseToNode)[promise].id, actionToNode[writer].id;
                && Done(Now(), ok) == (if compatible then Merge(old(Now()), p, w) else Done(old(Now()), false))
                && (ok && old(!hasCycles ==> Acyclic(Pairs(View(nodeList)))) ==>
                      !hasCycles && Merged(old(View(nodeList)), View(nodeList), p, w))
      ensures writer !in old(actionToNode) ==>
                ok && Now() == old(Now()) && actionToNode == old(actionToNode)[writer := old(promiseToNode)[promise]]
      ensures promiseToNode == if ok then old(promiseToNode) - {promise} else old(promiseToNode)
    {
      hide WellFormed, Shape, All, View, Merged, Acyclic, Merge, Ids, NoReader;
      var p := promiseToNode[promise];
      if writer in actionToNode {
        ok := MergeNodes(actionToNode[writer], p, promise, compatible);
      } else {
        ConvertNode(p, writer);
        promiseToNode := promiseToNode - {promise};
        actionToNode := actionToNode[writer := p];
        ok := true;
      }
    }

    method ConvertNode(p: CycleNode, writer: nat)
      requires Shape(nodeList) && Owns(nodeList, p)
      modifies p`action
      ensures Shape(nodeList) && View(nodeList) == old(View(nodeList)) && p.action == Some(writer)
    {
      ghost var g := View(nodeList);
      p.action := Some(writer);
      forall i | 0 <= i < |nodeList|
        ensures View(nodeList)[i] == g[i]
      {
        assert g[i] == old(nodeList[i].Val());
      }
    }

    /** Whether the graph orders one action before another; false for actions without a node. */
    method CheckReachable(from: nat, to: nat) returns (b: bool)
      requires Valid()
      ensures b <==> from in actionToNode && to in actionToNode
                     && Reach(Pairs(View(nodeList)), actionToNode[from].id, actionToNode[to].id)
    {
      hide WellFormed, Shape, All, View;
      if from !in actionToNode || to !in actionToNode {
        return false;
      }
      b := SearchNodes(nodeList, actionToNode[from], actionToNode[to]);
    }
  }

  lemma BackOwned(nodes: seq<CycleNode>, n: CycleNode)
    requires Shape(nodes) && Owns(nodes, n)
    ensures forall m :: m in n.backEdges ==> m in nodes && Owns(nodes, m)
    ensures forall m :: m in n.edges ==> m in nodes && Owns(nodes, m)
  {
    assert nodes[n.id].backEdges == n.backEdges && nodes[n.id].edges == n.edges;
    forall m | m in n.backEdges
      ensures m in nodes && Owns(nodes, m)
    {
      var j :| 0 <= j < |n.backEdges| && n.backEdges[j] == m;
      assert Owns(nodes, n.backEdges[j]);
    }
    forall m | m in n.edges
      ensures m in nodes && Owns(nodes, m)
    {
      var j :| 0 <= j < |n.edges| && n.edges[j] == m;
      assert Owns(nodes, n.edges[j]);
    }
  }
}
