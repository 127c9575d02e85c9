/** An execution is feasible to the graph exactly when the standard admits a modification order for it. */
module Feasibility {
  import opened Relations
  import opened GraphTheory
  import opened GraphRollback
  import opened GraphRuns
  import opened Coherence

  // ----- every log of an execution can be given to the graph -----

  ghost predicate TargetsBelow(g: Graph, m: nat) {
    forall x, y :: (x, y) in Pairs(g) ==> y < m
  }

  lemma EdgeTargets(s: State, from: nat, to: nat, m: nat)
    requires from < |s.g| && to < |s.g| && TargetsBelow(s.g, m) && to < m
    ensures TargetsBelow(AddNodeEdge(s, from, to).g, m)
  {
    if to !in s.g[from].edges {
      var e := AddNodeEdgePairs(s, from, to);
    }
  }

  lemma ReaderTargets(s: State, from: nat, rmw: nat, m: nat)
    requires WellFormed(s.g) && from < |s.g| && rmw < |s.g|
    requires TargetsBelow(s.g, m) && rmw < m
    ensures InRange(s.g, s.g[from].edges) && TargetsBelow(AddRmwEdge(s, from, rmw).g, m)
  {
    var g := Attached(s.g, from, rmw);
    SetRmwFacts(s.g, from, rmw);
    CopyEdgesFacts(g, rmw, g[from].edges);
    CopyEdgesRmw(g, rmw, g[from].edges);
    forall y | y in s.g[from].edges
      ensures y < m
    {
      assert (from, y) in Pairs(s.g);
    }
    EdgeTargets(Copied(s, from, rmw), from, rmw, m);
  }

  lemma BackInPairs(g: Graph, r: nat)
    requires WellFormed(g) && r < |g| && g[r].back != []
    ensures exists a: nat :: (a, r) in Pairs(g)
  {
    var a := g[r].back[0];
    assert a in g[r].back;
    assert r in g[a].edges;
    assert (a, r) in Pairs(g);
  }

  lemma ReaderAsked(s: State, rank: seq<nat>, reqs: seq<Request>, a: nat)
    requires Inv(s, rank, reqs) && a < |s.g| && s.g[a].rmw.Some?
    ensures exists q :: q in reqs && PairOf(q) == (a, s.g[a].rmw.value)
  {
    var q := ReadByRmw(a, s.g[a].rmw.value);
    assert q in reqs && PairOf(q) == (a, s.g[a].rmw.value);
  }

  /** A node beyond everything asked so far is fresh. */
  lemma FreshBeyond(t: Tracking, r: nat)
    requires Good(t) && r < |t.now.s.g| && TargetsBelow(t.now.s.g, r)
    requires forall q :: q in t.now.reqs ==> PairOf(q).0 < r && PairOf(q).1 < r
    ensures Fresh(t.now.s.g, r)
  {
    hide Extends, Inv;
    var g := t.now.s.g;
    SoundWellFormed(t.now);
    forall a: nat | a < |g| && g[a].rmw.Some?
      ensures a < r && g[a].rmw.value < r
    {
      ReaderAsked(t.now.s, t.now.rank, t.now.reqs, a);
    }
    if g[r].back != [] {
      BackInPairs(g, r);
    }
  }

  lemma RunAppend(ts: seq<Tracking>, cs: seq<Call>, c: Call) returns (ts': seq<Tracking>)
    requires IsRun(ts, cs) && Allowed(ts[|cs|], c)
    ensures Good(ts[|cs|]) && ts' == ts + [Step(ts[|cs|], c)] && IsRun(ts', cs + [c])
  {
    hide Good, Step, Allowed;
    RunGood(ts, cs, |cs|);
    ts' := ts + [Step(ts[|cs|], c)];
    forall i | 0 <= i < |cs + [c]|
      ensures StepsTo(ts'[i], (cs + [c])[i], ts'[i + 1])
    {
      if i < |cs| {
        assert StepsTo(ts[i], cs[i], ts[i + 1]);
      }
    }
  }

  lemma {:induction false} EmptyNodes(n: nat) returns (ts: seq<Tracking>, cs: seq<Call>)
    ensures IsRun(ts, cs)
    ensures var now := ts[|cs|].now; |now.s.g| == n && now.reqs == [] && Pairs(now.s.g) == {}
  {
    hide Good;
    if n == 0 {
      ts, cs := [EMPTY_TRACKING], [];
    } else {
      ts, cs := EmptyNodes(n - 1);
      var was := ts[|cs|];
      assert Allowed(was, NewNode);
      ts := RunAppend(ts, cs, NewNode);
      cs := cs + [NewNode];
      assert Pairs(was.now.s.g + [EMPTY_NODE]) == {} by {
        forall a: nat, b: nat
          ensures (a, b) !in Pairs(was.now.s.g + [EMPTY_NODE])
        {
          assert (a, b) !in Pairs(was.now.s.g);
        }
      }
    }
  }

  function CallOf(q: Request): Call {
    match q
    case Before(a, b) => AddEdge(a, b)
    case ReadByRmw(w, r) => AddReader(w, r)
  }

  ghost predicate LogBelow(log: seq<Request>, m: nat) {
    forall i {:trigger log[i]} :: 0 <= i < |log| ==> PairOf(log[i]).0 < m && PairOf(log[i]).1 < m
  }

  /** One more request, after those of a run on enough nodes. */
  lemma ReplayStep(t: Tracking, q: Request, m: nat)
    requires Good(t) && m <= |t.now.s.g| && LogBelow(t.now.reqs + [q], m)
    requires forall k :: LogBelow(t.now.reqs, k) ==> TargetsBelow(t.now.s.g, k)
    requires q.ReadByRmw? ==> q.w < q.r && LogBelow(t.now.reqs, q.r)
    ensures Allowed(t, CallOf(q))
    ensures var t' := Step(t, CallOf(q));
            && t'.now.reqs == t.now.reqs + [q] && |t'.now.s.g| == |t.now.s.g|
            && forall k :: LogBelow(t'.now.reqs, k) ==> TargetsBelow(t'.now.s.g, k)
  {
    hide Inv, Extends, AddNodeEdge, EdgeLog, CopyEdges, CopyLog, PushEdge, TargetsBelow;
    var g, log := t.now.s.g, t.now.reqs;
    assert PairOf((log + [q])[|log|]) == PairOf(q);
    SoundWellFormed(t.now);
    if q.ReadByRmw? {
      forall p | p in log
        ensures PairOf(p).0 < q.r && PairOf(p).1 < q.r
      {
        var i :| 0 <= i < |log| && log[i] == p;
      }
      FreshBeyond(t, q.r);
      AttachFacts(t.now.s, t.now.rank, q.w, q.r);
      CopyEdgesRmw(Attached(g, q.w, q.r), q.r, g[q.w].edges);
      EdgeLogInRange(Copied(t.now.s, q.w, q.r), q.w, q.r);
    } else {
      EdgeLogInRange(t.now.s, q.a, q.b);
    }
    var t' := Step(t, CallOf(q));
    forall k | LogBelow(t'.now.reqs, k)
      ensures TargetsBelow(t'.now.s.g, k)
    {
      LogBelowPrefix(log, q, k);
      if q.ReadByRmw? {
        ReaderTargets(t.now.s, q.w, q.r, k);
      } else {
        EdgeTargets(t.now.s, q.a, q.b, k);
      }
    }
  }

  lemma LogBelowPrefix(log: seq<Request>, q: Request, k: nat)
    requires LogBelow(log + [q], k)
    ensures LogBelow(log, k) && PairOf(q).0 < k && PairOf(q).1 < k
  {
    forall i | 0 <= i < |log|
      ensures PairOf(log[i]).0 < k && PairOf(log[i]).1 < k
    {
      assert (log + [q])[i] == log[i];
    }
    assert (log + [q])[|log|] == q;
  }

  /** Any log of an execution is accepted call by call. */
  lemma {:induction false} Replay(tr: Trace, log: seq<Request>) returns (ts: seq<Tracking>, cs: seq<Call>)
    requires LogOk(tr, log)
    ensures IsRun(ts, cs)
    ensures var now := ts[|cs|].now;
            && |now.s.g| == |tr| && now.reqs == log
            && forall k :: LogBelow(log, k) ==> TargetsBelow(now.s.g, k)
    decreases |log|
  {
    hide Good, Step, Allowed, StepsTo;
    if log == [] {
      ts, cs := EmptyNodes(|tr|);
    } else {
      var q, rest := log[|log| - 1], log[..|log| - 1];
      assert log == rest + [q];
      LogPrefix(tr, log);
      ts, cs := Replay(tr, rest);
      RunGood(ts, cs, |cs|);
      ReplayStep(ts[|cs|], q, |tr|);
      ts := RunAppend(ts, cs, CallOf(q));
      cs := cs + [CallOf(q)];
    }
  }

  lemma LogPrefix(tr: Trace, log: seq<Request>)
    requires LogOk(tr, log) && log != []
    ensures LogOk(tr, log[..|log| - 1]) && LogBelow(log, |tr|)
    ensures var q := log[|log| - 1]; q.ReadByRmw? ==> q.w < q.r && LogBelow(log[..|log| - 1], q.r)
  {
    var rest := log[..|log| - 1];
    assert forall i :: 0 <= i < |rest| ==> rest[i] == log[i];
  }

  // ----- the flag and the standard -----

  /**
   * Whenever the graph has been given what a coherent execution asked, its flag is down exactly when
   * some modification order satisfies the standard; and every such execution can be given to the graph.
   */
  lemma FlagMeansCoherent(tr: Trace, rel: Rel, asked: seq<Request>, ts: seq<Tracking>, cs: seq<Call>)
    requires Coherent(tr, rel, asked) && IsRun(ts, cs)
    requires ts[|cs|].now.reqs == asked && |ts[|cs|].now.s.g| == |tr|
    ensures !ts[|cs|].now.s.cyclic <==> exists order :: TotalOrder(order, |tr|) && Axioms(tr, rel, order)
  {
    hide Coherent, StepsTo, Axioms, Satisfies;
    RunDecides(ts, cs, |cs|);
    forall order
      ensures Axioms(tr, rel, order) <==> Satisfies(order, asked)
    {
      if Axioms(tr, rel, order) {
        RequestsNeeded(tr, rel, asked, order);
      }
      if Satisfies(order, asked) {
        RequestsSuffice(tr, rel, asked, order);
      }
    }
  }

  /** The order built by the graph's pairs: every edge is in every order the standard admits. */
  lemma EdgesForced(tr: Trace, rel: Rel, asked: seq<Request>, ts: seq<Tracking>, cs: seq<Call>, order: seq<nat>)
    requires Coherent(tr, rel, asked) && IsRun(ts, cs) && ts[|cs|].now.reqs == asked && Axioms(tr, rel, order)
    ensures Orients(order, Pairs(ts[|cs|].now.s.g))
  {
    hide Coherent, StepsTo, Axioms, Satisfies, Orients;
    RequestsNeeded(tr, rel, asked, order);
    RunGood(ts, cs, |cs|);
  }
}
