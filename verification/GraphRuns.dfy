/** Every run of the modification-order graph: calls that add, commit and roll back. */
module GraphRuns {
  import opened Relations
  import opened GraphTheory
  import opened GraphRollback

  datatype Call =
    | NewNode
    | AddEdge(from: nat, to: nat)
    | AddReader(write: nat, rmw: nat)
    | Commit
    | Rollback

  /** The graph, its last commit, and the logs that lead back to it. */
  datatype Tracking = Tracking(now: Record, last: Record, log: seq<nat>, rmwLog: seq<nat>)

  ghost const EMPTY_RECORD := Record(State([], false), [], [])
  ghost const EMPTY_TRACKING := Tracking(EMPTY_RECORD, EMPTY_RECORD, [], [])

  ghost predicate LogsInRange(t: Tracking) {
    InRange(t.now.s.g, t.log) && InRange(t.now.s.g, t.rmwLog)
  }

  ghost predicate Good(t: Tracking) {
    Tracked(t.now, t.last, t.log, t.rmwLog) && LogsInRange(t)
  }

  /** What the callers owe: known nodes, and a read-modify-write that is new to the graph. */
  ghost predicate Allowed(t: Tracking, c: Call) {
    var g := t.now.s.g;
    match c
    case AddEdge(from, to) => from < |g| && to < |g|
    case AddReader(write, rmw) => write < |g| && Fresh(g, rmw) && write != rmw
    case _ => true
  }

  ghost function Step(t: Tracking, c: Call): Tracking
    requires Good(t) && Allowed(t, c)
  {
    hide Inv;
    SoundWellFormed(t.now);
    var now, g := t.now, t.now.s.g;
    match c
    case NewNode =>
      t.(now := now.(s := State(g + [EMPTY_NODE], now.s.cyclic), rank := now.rank + [0]))
    case AddEdge(from, to) =>
      t.(now := Record(AddNodeEdge(now.s, from, to), now.rank, now.reqs + [Before(from, to)]),
         log := t.log + EdgeLog(g, from, to))
    case AddReader(write, rmw) =>
      AttachFacts(now.s, now.rank, write, rmw);
      var rank := AttachRank(g, now.rank, write, rmw);
      t.(now := Record(AddRmwEdge(now.s, write, rmw), rank, now.reqs + [ReadByRmw(write, rmw)]),
         log := t.log + RmwEdgeLog(now.s, write, rmw),
         rmwLog := if g[write].rmw.Some? then t.rmwLog else t.rmwLog + [write])
    case Commit =>
      Tracking(now, now, [], [])
    case Rollback =>
      var undone := UndoReaders(UndoEdges(g, t.log), t.rmwLog);
      Tracking(Record(State(undone, t.last.s.cyclic), now.rank, t.last.reqs), t.last, [], [])
  }

  lemma EdgeLogInRange(s: State, from: nat, to: nat)
    requires from < |s.g| && to < |s.g|
    ensures InRange(s.g, EdgeLog(s.g, from, to))
    ensures |AddNodeEdge(s, from, to).g| == |s.g|
  {
    PushEdgeShape(s.g, from, to);
  }

  lemma {:induction false} CopyLogInRange(g: Graph, rmw: nat, ts: seq<nat>)
    requires rmw < |g| && InRange(g, ts)
    ensures InRange(g, CopyLog(g, rmw, ts))
    decreases |ts|
  {
    if ts != [] {
      if ts[0] == rmw {
        CopyLogInRange(g, rmw, ts[1..]);
      } else {
        PushEdgeShape(g, rmw, ts[0]);
        CopyLogInRange(PushEdge(g, rmw, ts[0]), rmw, ts[1..]);
      }
    }
  }

  lemma StepEdgeGood(t: Tracking, from: nat, to: nat)
    requires Good(t) && Allowed(t, AddEdge(from, to))
    ensures Good(Step(t, AddEdge(from, to)))
  {
    hide Inv, Extends, AddNodeEdge, EdgeLog;
    SoundWellFormed(t.now);
    TrackedEdge(t.now, t.last, t.log, t.rmwLog, from, to);
    EdgeLogInRange(t.now.s, from, to);
  }

  lemma StepReaderGood(t: Tracking, write: nat, rmw: nat)
    requires Good(t) && Allowed(t, AddReader(write, rmw))
    ensures Good(Step(t, AddReader(write, rmw)))
  {
    hide Inv, Extends, AddNodeEdge, EdgeLog, CopyEdges, CopyLog, PushEdge;
    var now := t.now;
    var g := now.s.g;
    SoundWellFormed(now);
    AttachFacts(now.s, now.rank, write, rmw);
    var rank := AttachRank(g, now.rank, write, rmw);
    TrackedRmw(now, t.last, t.log, t.rmwLog, write, rmw, rank);
    CopyLogInRange(Attached(g, write, rmw), rmw, g[write].edges);
    CopyEdgesRmw(Attached(g, write, rmw), rmw, g[write].edges);
    EdgeLogInRange(Copied(now.s, write, rmw), write, rmw);
  }

  lemma StepRollbackGood(t: Tracking)
    requires Good(t)
    ensures Good(Step(t, Rollback))
    ensures var g := Step(t, Rollback).now.s.g;
            |t.last.s.g| <= |g| && g == Padded(t.last.s.g, |g| - |t.last.s.g|)
  {
    hide Inv, Extends, Padded;
    var g := UndoReaders(UndoEdges(t.now.s.g, t.log), t.rmwLog);
    var rank := RollbackRestores(t.now, t.last, t.log, t.rmwLog);
    SoundWellFormed(t.now);
    UndoRanked(t.now.s.g, t.now.rank, t.log, t.rmwLog);
    InvAnyRank(State(g, t.last.s.cyclic), rank, t.now.rank, t.last.reqs);
  }

  lemma InvAnyRank(s: State, rank: seq<nat>, rank': seq<nat>, reqs: seq<Request>)
    requires Inv(s, rank, reqs) && Ranked(s.g, rank')
    ensures Inv(s, rank', reqs)
  {
  }

  /** Undoing only takes readers away, so chains still end. */
  lemma UndoRanked(g: Graph, rank: seq<nat>, log: seq<nat>, rmwLog: seq<nat>)
    requires Ranked(g, rank)
    ensures Ranked(UndoReaders(UndoEdges(g, log), rmwLog), rank)
  {
    UndoEdgesRanked(g, rank, log);
    UndoReadersRanked(UndoEdges(g, log), rank, rmwLog);
  }

  lemma {:induction false} UndoEdgesRanked(g: Graph, rank: seq<nat>, log: seq<nat>)
    requires Ranked(g, rank)
    ensures Ranked(UndoEdges(g, log), rank)
    decreases |log|
  {
    if log != [] {
      var h := PopLogged(g, log[0]);
      assert forall a :: 0 <= a < |g| ==> h[a].rmw == g[a].rmw;
      UndoEdgesRanked(h, rank, log[1..]);
    }
  }

  lemma {:induction false} UndoReadersRanked(g: Graph, rank: seq<nat>, log: seq<nat>)
    requires Ranked(g, rank)
    ensures Ranked(UndoReaders(g, log), rank)
    decreases |log|
  {
    if log != [] {
      UndoReadersRanked(if log[0] < |g| then ClearRmw(g, log[0]) else g, rank, log[1..]);
    }
  }

  /** Every allowed call keeps the tracking good. */
  lemma StepGood(t: Tracking, c: Call)
    requires Good(t) && Allowed(t, c)
    ensures Good(Step(t, c))
  {
    match c
    case NewNode =>
      hide Inv, Extends;
      TrackedNode(t.now, t.last, t.log, t.rmwLog);
    case AddEdge(from, to) => StepEdgeGood(t, from, to);
    case AddReader(write, rmw) => StepReaderGood(t, write, rmw);
    case Commit =>
      hide Inv, Extends;
      TrackedCommit(t.now, t.last, t.log, t.rmwLog);
    case Rollback => StepRollbackGood(t);
  }

  lemma EmptyGood()
    ensures Good(EMPTY_TRACKING)
  {
    hide Inv, Extends;
    EmptySound(State([], false), [], []);
    ExtendsRefl([]);
  }

  lemma EmptySound(s: State, rank: seq<nat>, reqs: seq<Request>)
    requires |s.g| == 0 && !s.cyclic && |rank| == 0 && |reqs| == 0
    ensures Inv(s, rank, reqs)
  {
    assert Pairs(s.g) == {};
  }

  // ----- whole runs -----

  /** The states of a run: it starts empty and each call is allowed where it is made. */
  ghost predicate IsRun(ts: seq<Tracking>, cs: seq<Call>) {
    && |ts| == |cs| + 1 && ts[0] == EMPTY_TRACKING
    && forall i :: 0 <= i < |cs| ==> StepsTo(ts[i], cs[i], ts[i + 1])
  }

  ghost predicate StepsTo(t: Tracking, c: Call, t': Tracking) {
    Good(t) ==> Allowed(t, c) && t' == Step(t, c)
  }

  lemma {:induction false} RunGood(ts: seq<Tracking>, cs: seq<Call>, i: nat)
    requires IsRun(ts, cs) && i < |ts|
    ensures Good(ts[i])
  {
    hide Good, Step, Allowed;
    if i == 0 {
      EmptyGood();
    } else {
      RunGood(ts, cs, i - 1);
      assert StepsTo(ts[i - 1], cs[i - 1], ts[i - 1 + 1]);
      StepGood(ts[i - 1], cs[i - 1]);
    }
  }

  /** After any run without merges, every walk along the readers stops: no call goes on for ever. */
  lemma RunEnds(ts: seq<Tracking>, cs: seq<Call>, i: nat, from: nat, to: nat)
    requires IsRun(ts, cs) && i < |ts| && from < |ts[i].now.s.g|
    ensures Ends(ts[i].now.s.g, from, to)
  {
    hide Step, IsRun, Inv, Ends;
    RunGood(ts, cs, i);
    SoundWellFormed(ts[i].now);
    RankedEnds(ts[i].now.s.g, ts[i].now.rank, from, to);
  }

  /**
   * After any run, the cycle flag is down exactly when some total order of the nodes keeps every
   * requested edge and puts every read-modify-write right after the write it reads.
   */
  lemma RunDecides(ts: seq<Tracking>, cs: seq<Call>, i: nat)
    requires IsRun(ts, cs) && i < |ts|
    ensures var now := ts[i].now;
            !now.s.cyclic <==> exists order :: TotalOrder(order, |now.s.g|) && Satisfies(order, now.reqs)
  {
    hide Step, IsRun, Inv, TotalOrder, Satisfies;
    RunGood(ts, cs, i);
    FlagDecides(ts[i].now.s, ts[i].now.rank, ts[i].now.reqs);
  }

  /** From any point of a run, rolling back gives the graph, the flag and the requests of the last commit. */
  lemma RunRollback(ts: seq<Tracking>, cs: seq<Call>, i: nat)
    requires IsRun(ts, cs) && i < |cs| && cs[i] == Rollback
    ensures var last, now := ts[i].last, ts[i + 1].now;
            && |last.s.g| <= |now.s.g| && now.s.g == Padded(last.s.g, |now.s.g| - |last.s.g|)
            && now.s.cyclic == last.s.cyclic && now.reqs == last.reqs
  {
    hide Good, Padded;
    RunGood(ts, cs, i);
    assert StepsTo(ts[i], cs[i], ts[i + 1]);
    StepRollbackGood(ts[i]);
  }

  /** The last commit is the state in which commit was last called. */
  lemma {:induction false} RunLastCommit(ts: seq<Tracking>, cs: seq<Call>, j: nat, i: nat)
    requires IsRun(ts, cs) && j < i < |ts| && cs[j] == Commit
    requires forall k :: j < k < i ==> cs[k] != Commit
    ensures ts[i].last == ts[j].now
    decreases i
  {
    hide Good;
    RunGood(ts, cs, i - 1);
    assert StepsTo(ts[i - 1], cs[i - 1], ts[i - 1 + 1]);
    if i - 1 > j {
      RunLastCommit(ts, cs, j, i - 1);
    }
  }
}
