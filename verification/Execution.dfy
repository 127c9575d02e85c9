/** The execution: actions as they run, their clocks, and the requests they make to the modification order. */
module Executions {
  import opened Relations
  import opened GraphTheory
  import opened Clocks
  import opened HappensBefore
  import opened Coherence
  import opened Scans
  import opened ScanLoops
  import opened Steps
  import opened ReleaseSequences

  /**
   * What the modification-order graph answers after the given calls: reachability in a relation that holds them, and
   * has no cycle as long as the flag is down.
   */
  ghost predicate GraphAnswers(cyclic: seq<Request> -> bool, reaches: (seq<Request>, nat, nat) -> bool,
                               mo: seq<Request> -> Rel) {
    && (forall log, a, b :: reaches(log, a, b) <==> Reach(mo(log), a, b))
    && (forall log :: Wanted(log) <= mo(log))
    && (forall log :: !cyclic(log) ==> Acyclic(mo(log)))
  }

  /** A release sequence to look at again: for which acquire, and what is open; nothing if the graph had a cycle. */
  datatype ReleaseSeq = ReleaseSeq(acquire: nat, sequence: Option<Pending>)

  /** The relation once an action has been appended: after its thread's last, or after what created the thread. */
  ghost function Inherited(tr: Trace, rel: Rel, tid: nat, creation: Option<nat>): Rel {
    rel + ParentEdge(ParentIn(Tids(tr), tid, creation), |tr|)
  }

  /** What created a thread happens before its first action. */
  ghost predicate CreatedBefore(tr: Trace, rel: Rel, tid: nat, creation: Option<nat>) {
    tid !in Tids(tr) && creation.Some? ==> Reach(rel, creation.value, |tr|)
  }

  lemma CreatedInherits(tr: Trace, rel: Rel, tid: nat, creation: Option<nat>, rel': Rel)
    requires Inherited(tr, rel, tid, creation) <= rel'
    ensures CreatedBefore(tr, rel', tid, creation)
  {
    LastOfIs(Tids(tr), tid);
    if tid !in Tids(tr) && creation.Some? {
      ReachPair(rel', creation.value, |tr|);
    }
  }

  /**
   * How the newest action, a read, synchronizes: an acquire with the heads that a search reports, and what is open is
   * kept for later; any other read with nothing.
   */
  ghost predicate Synced(tr: Trace, rel: Rel, mo: Rel, settled: set<nat>, threads: nat, cyclic: bool, heads: seq<nat>,
                         was: seq<ReleaseSeq>, now: seq<ReleaseSeq>)
    requires tr != []
  {
    var n := |tr| - 1;
    if tr[n].IsAcquire() then
      exists complete: bool, pending: Option<Pending> ::
        && Searched(tr, rel, mo, settled, threads, tr[n].rf, cyclic, heads, complete, pending)
        && now == was + if complete then [] else [ReleaseSeq(n, pending)]
    else heads == [] && now == was
  }

  function ListIn(m: map<(nat, nat), seq<nat>>, loc: nat, t: nat): seq<nat> {
    if (loc, t) in m then m[(loc, t)] else []
  }

  /** The lists of all threads for a location. */
  function ListsOf(m: map<(nat, nat), seq<nat>>, loc: nat, threads: nat): (r: seq<seq<nat>>)
    ensures |r| == threads && forall t :: 0 <= t < threads ==> r[t] == ListIn(m, loc, t)
  {
    seq(threads, t requires 0 <= t => ListIn(m, loc, t))
  }

  function GrownList(l: seq<nat>, n: nat, act: Action, loc: nat, t: nat): seq<nat> {
    if act.IsAccess() && act.loc == loc && act.tid == t then l + [n] else l
  }

  lemma ListGrows(tr: Trace, l: seq<nat>, act: Action, loc: nat, t: nat)
    requires IsList(tr, l, loc, t)
    ensures IsList(tr + [act], GrownList(l, |tr|, act, loc, t), loc, t)
  {
    var l' := GrownList(l, |tr|, act, loc, t);
    forall i, j | 0 <= i < j < |l'|
      ensures l'[i] < l'[j]
    {
      assert l'[i] in l;
    }
  }

  lemma NewTraceOk(tr: Trace, rel: Rel, asked: seq<Request>, act: Action, cvs: seq<Clock>, rel': Rel)
    requires TraceOk(tr, rel) && Exact(Tids(tr + [act]), cvs, rel')
    requires act.IsRead() ==> act.rf < |tr| && tr[act.rf].IsWrite() && tr[act.rf].loc == act.loc
    ensures TraceOk(tr + [act], rel')
  {
    var tr' := tr + [act];
    forall b | 0 <= b < |tr'| && tr'[b].IsRead()
      ensures tr'[b].rf < b && tr'[tr'[b].rf].IsWrite() && tr'[tr'[b].rf].loc == tr'[b].loc
    {
      if b < |tr| {
        assert tr'[b] == tr[b];
      }
    }
  }

  lemma ParentInto(tids: seq<nat>, rel: Rel, tid: nat, creation: Option<nat>, parent: Option<nat>)
    requires IsParent(tids, tid, creation, parent)
    ensures Into(rel, rel + ParentEdge(parent, |tids|), |tids|)
  {
  }

  /** Every release write that the search walks past, or else the release fence before it, happens before the read. */
  ghost predicate ReleasesBefore(tr: Trace, rel: Rel, rf: nat, n: nat) {
    forall w: nat {:trigger Walked(tr, w, rf)} :: Walked(tr, w, rf) ==>
      && w < |tr| && (tr[w].IsRelease() ==> Reach(rel, w, n))
      && (!tr[w].IsRelease() ==> forall f: nat :: IsReleaseFence(tr, w, Some(f)) ==> Reach(rel, f, n))
  }

  lemma AcquireSynced(tr: Trace, rel: Rel, mo: Rel, settled: set<nat>, threads: nat, cyclic: bool, heads: seq<nat>,
                      was: seq<ReleaseSeq>, now: seq<ReleaseSeq>)
    requires tr != [] && Synced(tr, rel, mo, settled, threads, cyclic, heads, was, now)
    ensures var n := |tr| - 1;
            tr[n].IsAcquire() && !cyclic ==>
              ReleasesBefore(tr, rel + HeadEdges((set h | h in heads), n), tr[n].rf, n)
  {
    hide Head, Judged, FoundLast, FoundCertain, Walked, Reach, IsReleaseFence;
    var n := |tr| - 1;
    var rel' := rel + HeadEdges((set h | h in heads), n);
    forall h | h in heads
      ensures Reach(rel', h, n)
    {
      assert (h, n) in rel';
      ReachPair(rel', h, n);
    }
  }

  class Execution {
    /** The graph as it is consulted: its cycle flag and its reachability after the calls made so far. */
    const cyclic: seq<Request> -> bool
    const reaches: (seq<Request>, nat, nat) -> bool
    ghost const mo: seq<Request> -> Rel

    var trace: Trace
    var cvs: seq<Clock>
    var numThreads: nat
    /** Per location and thread, the accesses in execution order. */
    var objThrdMap: map<(nat, nat), seq<nat>>
    var lastAction: map<nat, nat>
    /** The calls made to the modification-order graph. */
    var asked: seq<Request>
    var pendingRelSeqs: seq<ReleaseSeq>
    /** Program order, thread creation, and synchronizes-with. */
    ghost var rel: Rel

    function List(loc: nat, t: nat): seq<nat>
      reads this`objThrdMap
    {
      ListIn(objThrdMap, loc, t)
    }

    ghost predicate Lists()
      reads this`objThrdMap, this`trace
    {
      forall loc: nat, t: nat :: IsList(trace, List(loc, t), loc, t)
    }

    ghost predicate Threads()
      reads this`trace, this`numThreads, this`lastAction
    {
      && (forall a :: 0 <= a < |trace| ==> trace[a].tid < numThreads)
      && (forall t :: t in lastAction ==> lastAction[t] < |trace| && trace[lastAction[t]].tid == t)
      && (forall a :: 0 <= a < |trace| ==> trace[a].tid in lastAction && a <= lastAction[trace[a].tid])
    }

    /** The state while the newest action is being processed. */
    ghost predicate Listed()
      reads this
    {
      && trace != [] && Lists() && Threads()
      && TraceOk(trace, rel) && ClocksExact(trace, cvs, rel) && |cvs| == |trace|
    }

    /** Between actions: everything that must precede does by request, nothing else is asked, and clocks are exact. */
    ghost predicate Valid()
      reads this
    {
      && Lists() && Threads() && ClocksExact(trace, cvs, rel) && |cvs| == |trace|
      && Coherent(trace, rel, asked) && GraphAnswers(cyclic, reaches, mo)
    }

    constructor (cyclic: seq<Request> -> bool, reaches: (seq<Request>, nat, nat) -> bool, ghost mo: seq<Request> -> Rel)
      requires GraphAnswers(cyclic, reaches, mo)
      ensures Valid() && trace == [] && asked == [] && pendingRelSeqs == [] && rel == {}
    {
      this.cyclic, this.reaches, this.mo := cyclic, reaches, mo;
      trace, cvs, numThreads, objThrdMap, lastAction, asked, pendingRelSeqs := [], [], 0, map[], map[], [], [];
      rel := {};
    }

    // ----- one action -----

    /** A read observes an earlier write of its location; a thread's creation is an earlier action. */
    ghost predicate CanRun(act: Action, creation: Option<nat>)
      reads this`trace
    {
      && (creation.Some? ==> creation.value < |trace|)
      && (act.IsRead() ==> act.rf < |trace| && trace[act.rf].IsWrite() && trace[act.rf].loc == act.loc)
    }

    /** Appends an action with its clock to the trace and the lists. */
    method AddAction(act: Action, creation: Option<nat>)
      requires Valid() && CanRun(act, creation)
      modifies this`trace, this`cvs, this`numThreads, this`objThrdMap, this`lastAction, this`rel
      ensures Listed() && trace == old(trace) + [act] && Into(old(rel), rel, |old(trace)|)
      ensures Appended(old(trace), old(rel), asked, act, rel, numThreads)
      ensures rel == Inherited(old(trace), old(rel), act.tid, creation)
    {
      hide Lists, Exact, TraceOk, Ordered, Justified, LogOk, GraphAnswers, IsParent, Create, Threads, ParentIn;
      var n := |trace|;
      var parent := if act.tid in lastAction then Some(lastAction[act.tid]) else creation;
      ParentFound(act.tid, creation);
      ParentUnique(Tids(trace), act.tid, creation, parent);
      assert Tids(trace + [act]) == Tids(trace) + [act.tid];
      NewExact(Tids(trace), cvs, rel, act.tid, creation, parent);
      NewTraceOk(trace, rel, asked, act, cvs + [Create(ParentClock(cvs, parent), act.tid, n + 1)],
                 rel + ParentEdge(parent, n));
      ParentInto(Tids(trace), rel, act.tid, creation, parent);
      cvs := cvs + [Create(ParentClock(cvs, parent), act.tid, n + 1)];
      AddToLists(act);
      rel := rel + ParentEdge(parent, n);
      assert ThreadsBelow(trace, numThreads) by { TidsBelow(); }
    }

    lemma ParentFound(tid: nat, creation: Option<nat>)
      requires Threads() && (creation.Some? ==> creation.value < |trace|)
      ensures IsParent(Tids(trace), tid, creation, if tid in lastAction then Some(lastAction[tid]) else creation)
    {
      if tid in lastAction {
        assert Tids(trace)[lastAction[tid]] == tid;
      }
    }

    lemma TidsBelow()
      requires Threads()
      ensures ThreadsBelow(trace, numThreads)
    {
    }

    method AddToLists(act: Action)
      requires Lists() && Threads()
      modifies this`trace, this`numThreads, this`objThrdMap, this`lastAction
      ensures Lists() && Threads() && trace == old(trace) + [act]
    {
      hide IsList;
      var n := |trace|;
      forall loc: nat, t: nat
        ensures IsList(trace + [act], GrownList(List(loc, t), n, act, loc, t), loc, t)
      {
        ListGrows(trace, List(loc, t), act, loc, t);
      }
      if act.IsAccess() {
        objThrdMap := objThrdMap[(act.loc, act.tid) := List(act.loc, act.tid) + [n]];
      }
      trace := trace + [act];
      lastAction := lastAction[act.tid := n];
      numThreads := Max(numThreads, act.tid + 1);
      forall loc: nat, t: nat
        ensures List(loc, t) == GrownList(old(List(loc, t)), n, act, loc, t)
      {
      }
    }

    /** Adds the edges that the newest action, a read, brings: one per thread at most. */
    method RModificationOrder(ghost old_: Rel)
      requires Listed() && trace[|trace| - 1].IsRead()
      requires TraceOk(trace[..|trace| - 1], old_) && Ordered(trace[..|trace| - 1], old_, asked)
      modifies this`asked
      ensures old(asked) <= asked
      ensures ReadCovered(trace, rel, |trace| - 1, asked, numThreads)
      ensures ReasonsFrom(trace, rel, |trace| - 1, asked, |old(asked)|)
      ensures OldRequests(asked, |old(asked)|, |trace| - 1)
    {
      hide Lists, Threads, TraceOk, ClocksExact, Ordered, MustRead, MoLe, Reason, IsReadStop, StopRequest;
      var n := |trace| - 1;
      var rf := trace[n].rf;
      ghost var tr := trace[..n];
      assert trace == tr + [trace[n]];
      assert ReadsOk(trace) by { TraceReadsOk(trace, rel); }
      var mine := LastScFence(trace, trace[n].tid, n);
      NothingCovered(n);
      for t := 0 to numThreads
        invariant old(asked) <= asked
        invariant ReadCovered(trace, rel, n, asked, t)
        invariant ReasonsFrom(trace, rel, n, asked, |old(asked)|)
        invariant OldRequests(asked, |old(asked)|, n)
      {
        var stop := ReadThread(n, t, mine);
        ReadThreadCovered(tr, old_, old(asked), trace[n], rel, t, stop, asked);
        asked := asked + StopRequest(trace, stop, rf);
      }
    }

    /** Adds the edges that the newest action, a write, brings; asked0 is what had been asked before the action. */
    method WModificationOrder(ghost old_: Rel, ghost asked0: seq<Request>)
      requires Listed() && trace[|trace| - 1].IsWrite() && asked0 <= asked
      requires TraceOk(trace[..|trace| - 1], old_) && Ordered(trace[..|trace| - 1], old_, asked0)
      modifies this`asked
      ensures old(asked) <= asked
      ensures WriteCovered(trace, rel, |trace| - 1, asked, numThreads) && ScCovered(trace, |trace| - 1, asked)
      ensures ReasonsFrom(trace, rel, |trace| - 1, asked, |old(asked)|)
      ensures NewRequests(asked, |old(asked)|, |trace| - 1)
    {
      hide Lists, Threads, TraceOk, ClocksExact, Ordered, WriteHit, MoLe, Reason, IsWriteStop, StopRequest,
           IsLastScWrite, ScCovered;
      var n := |trace| - 1;
      ghost var tr := trace[..n];
      assert trace == tr + [trace[n]];
      assert ReadsOk(trace) by { TraceReadsOk(trace, rel); }
      AskScWrite(n, old_, asked0);
      ghost var first := asked;
      var mine := LastScFence(trace, trace[n].tid, n);
      NothingCovered(n);
      for t := 0 to numThreads
        invariant old(asked) <= first <= asked
        invariant WriteCovered(trace, rel, n, asked, t)
        invariant ReasonsFrom(trace, rel, n, asked, |old(asked)|)
        invariant NewRequests(asked, |old(asked)|, n)
      {
        var stop := WriteThread(n, t, mine);
        WriteThreadCovered(tr, old_, asked0, trace[n], rel, t, stop, asked, |old(asked)|);
        asked := asked + StopRequest(trace, stop, n);
      }
      ScCoveredMono(trace, n, first, asked);
    }

    /** A seq_cst write comes after the previous one of its location. */
    method AskScWrite(n: nat, ghost old_: Rel, ghost asked0: seq<Request>)
      requires n == |trace| - 1 && trace[n].IsWrite() && asked0 <= asked
      requires TraceOk(trace[..n], old_) && Ordered(trace[..n], old_, asked0)
      modifies this`asked
      ensures old(asked) <= asked && ScCovered(trace, n, asked)
      ensures ReasonsFrom(trace, rel, n, asked, |old(asked)|) && NewRequests(asked, |old(asked)|, n)
    {
      hide TraceOk, Ordered, MoLe;
      assert trace == trace[..n] + [trace[n]];
      if trace[n].IsSeqCst() {
        var w := LastScWrite(trace, n);
        if w.Some? {
          asked := asked + [Before(w.value, n)];
          assert MustWrite(trace, rel, w.value, n);
        }
        ScWriteCovered(trace[..n], old_, asked0, trace[n], w, asked);
      }
    }

    /** Looks up the fences and scans one thread for the newest action, a write. */
    method WriteThread(n: nat, t: nat, mine: Option<nat>) returns (stop: Option<nat>)
      requires Listed() && n == |trace| - 1 && trace[n].IsWrite()
      requires IsLastFence(trace, trace[n].tid, n, mine)
      ensures if OwnRmw(trace, n, t) then stop == None else IsWriteStop(trace, rel, n, t, stop)
      ensures stop.Some? ==> stop.value < n
    {
      hide TraceOk, ClocksExact, WriteHit, Threads, IsLastFence;
      var before := None;
      if mine.Some? && t != trace[n].tid {
        FenceInTrace(trace, trace[n].tid, n, mine);
        before := LastScFence(trace, t, mine.value);
      }
      assert IsList(trace, List(trace[n].loc, t), trace[n].loc, t);
      stop := WriteScan(trace, cvs, List(trace[n].loc, t), n, t, mine, before, rel);
      if stop.Some? {
        HitBefore(trace, rel, n, t, stop.value);
      }
    }

    lemma NothingCovered(n: nat)
      requires n < |trace|
      ensures ReadCovered(trace, rel, n, asked, 0) && WriteCovered(trace, rel, n, asked, 0)
    {
    }

    /** Looks up the fences and scans one thread for the newest action, a read. */
    method ReadThread(n: nat, t: nat, mine: Option<nat>) returns (stop: Option<nat>)
      requires Listed() && n == |trace| - 1 && trace[n].IsRead()
      requires IsLastFence(trace, trace[n].tid, n, mine)
      ensures IsReadStop(trace, rel, n, t, stop) && (stop.Some? ==> stop.value < n)
    {
      hide TraceOk, ClocksExact, ReadHit, Threads, IsLastFence;
      var theirs := None;
      if t != trace[n].tid {
        theirs := LastScFence(trace, t, n);
      }
      var before := None;
      if mine.Some? {
        FenceInTrace(trace, trace[n].tid, n, mine);
        before := LastScFence(trace, t, mine.value);
      }
      assert IsList(trace, List(trace[n].loc, t), trace[n].loc, t);
      stop := ReadScan(trace, cvs, List(trace[n].loc, t), n, t, mine, theirs, before, rel);
      if stop.Some? {
        HitBefore(trace, rel, n, t, stop.value);
      }
    }

    // ----- synchronization of the newest action -----

    /** The newest action takes over the clocks of earlier ones. */
    method SynchronizeAll(heads: seq<nat>)
      requires Listed() && forall h :: h in heads ==> h < |trace| - 1
      modifies this`cvs, this`rel
      ensures Listed() && rel == old(rel) + HeadEdges((set h | h in heads), |trace| - 1)
    {
      hide Lists, Threads, ReadsOk, Exact, Propagated;
      var n := |trace| - 1;
      for i := 0 to |heads|
        invariant |cvs| == |trace| && ClocksExact(trace, cvs, rel)
        invariant rel == old(rel) + HeadEdges((set h | h in heads[..i]), n)
      {
        ghost var was := cvs;
        assert heads[i] in heads && heads[..i + 1] == heads[..i] + [heads[i]];
        cvs := cvs[n := Join(cvs[n], cvs[heads[i]])];
        LastPropagated(trace, was, heads[i]);
        SyncExact(Tids(trace), was, cvs, rel, heads[i], n);
        rel := rel + {(heads[i], n)};
      }
      assert heads[..|heads|] == heads;
      ExactTrace(trace, cvs, old(rel), rel);
    }

    /** An acquire read synchronizes with the heads of the release sequences it reads from. */
    method ReadFrom(settled: set<nat>, ghost old_: Rel, ghost asked0: seq<Request>) returns (ghost heads: seq<nat>)
      requires Listed() && GraphAnswers(cyclic, reaches, mo) && trace[|trace| - 1].IsRead() && asked0 <= asked
      requires Coherent(trace[..|trace| - 1], old_, asked0) && Into(old_, rel, |trace| - 1)
      modifies this`cvs, this`rel, this`pendingRelSeqs
      ensures Listed() && rel == old(rel) + HeadEdges((set h | h in heads), |trace| - 1)
      ensures forall h :: h in heads ==> h < |trace| - 1 && IsHead(trace[..|trace| - 1], old_, trace[|trace| - 1].rf, h)
      ensures Synced(trace, old(rel), mo(asked), settled, numThreads, cyclic(asked), heads, old(pendingRelSeqs),
                     pendingRelSeqs)
    {
      hide Lists, Threads, ClocksExact, ReadsOk, Head, IsHead, GraphAnswers, ReadOrdered, WriteOrdered, Ordered,
           Justified, LogOk, Judged, Reported, Walked, IsCandidate;
      heads := [];
      var n := |trace| - 1;
      if trace[n].IsAcquire() {
        var found, complete, pending := FindHeads(settled, old_, asked0);
        heads := found;
        forall h | h in found
          ensures h < n && IsHead(trace[..n], old_, trace[n].rf, h)
        {
          HeadsFit(trace, old_, rel, mo(asked), settled, numThreads, h);
        }
        assert pendingRelSeqs + [] == pendingRelSeqs;
        if !complete {
          pendingRelSeqs := pendingRelSeqs + [ReleaseSeq(n, pending)];
        }
        SynchronizeAll(found);
      } else {
        assert rel == rel + HeadEdges({}, n);
      }
    }

    method FindHeads(settled: set<nat>, ghost old_: Rel, ghost asked0: seq<Request>)
      returns (heads: seq<nat>, complete: bool, pending: Option<Pending>)
      requires Listed() && GraphAnswers(cyclic, reaches, mo) && trace[|trace| - 1].IsRead() && asked0 <= asked
      requires Coherent(trace[..|trace| - 1], old_, asked0) && Into(old_, rel, |trace| - 1)
      ensures Searched(trace, rel, mo(asked), settled, numThreads, trace[|trace| - 1].rf, cyclic(asked), heads,
                       complete,
                       pending)
    {
      hide ClocksExact, Head, Ordered, Justified, LogOk, Searched, Searchable, Reach, ListsAt, Lists, Threads, OnChain,
           TraceOk, Wanted, Acyclic, LastsOk;
      var n, log := |trace| - 1, asked;
      assert trace == trace[..n] + [trace[n]];
      TraceReadsOk(trace, rel);
      ReadsOkAt(trace, n);
      assert Wanted(asked) <= mo(asked);
      ReadingSearchable(trace[..n], old_, asked0, trace[n], rel, cvs, asked, mo(asked));
      var lists := ListsOf(objThrdMap, trace[n].loc, numThreads);
      ListsFit(trace[n].loc);
      heads, complete, pending :=
        ReleaseSeqHeads(trace, cvs, lists, lastAction, settled, cyclic(log), (a: nat, b: nat) => reaches(log, a, b),
                        trace[n].rf, rel, asked, mo(asked));
    }

    lemma ListsFit(loc: nat)
      requires Lists() && Threads()
      ensures ListsAt(trace, ListsOf(objThrdMap, loc, numThreads), loc) && LastsOk(trace, lastAction)
      ensures forall a :: 0 <= a < |trace| ==> trace[a].tid < numThreads
    {
      forall t | 0 <= t < numThreads
        ensures IsList(trace, ListsOf(objThrdMap, loc, numThreads)[t], loc, t)
      {
        assert IsList(trace, List(loc, t), loc, t);
      }
    }

    // ----- whole actions -----

    /** A read: its edges before it synchronizes, then the synchronization it gains. */
    method ProcessRead(act: Action, creation: Option<nat>, settled: set<nat>) returns (ghost heads: seq<nat>)
      requires Valid() && CanRun(act, creation) && act.kind.Read?
      modifies this
      ensures Valid() && trace == old(trace) + [act] && old(asked) <= asked
      ensures rel == Inherited(old(trace), old(rel), act.tid, creation) + HeadEdges((set h | h in heads), |old(trace)|)
      ensures CreatedBefore(old(trace), rel, act.tid, creation)
      ensures Synced(trace, Inherited(old(trace), old(rel), act.tid, creation), mo(asked), settled, numThreads,
                     cyclic(asked), heads, old(pendingRelSeqs), pendingRelSeqs)
      ensures act.IsAcquire() && !cyclic(asked) ==> ReleasesBefore(trace, rel, act.rf, |old(trace)|)
    {
      hide Lists, Threads, ClocksExact, TraceOk, Ordered, Justified, LogOk, ThreadsBelow, Head, IsHead, GraphAnswers,
           ReadCovered, OldRequests, ReasonsFrom, Synced, Inherited;
      AddAction(act, creation);
      ghost var rel0 := rel;
      assert trace[..|trace| - 1] == old(trace);
      RModificationOrder(old(rel));
      heads := ReadFrom(settled, old(rel), old(asked));
      ReadStep(old(trace), old(rel), old(asked), act, rel0, (set h | h in heads), asked, numThreads);
      CreatedInherits(old(trace), old(rel), act.tid, creation, rel);
      AcquireSynced(trace, rel0, mo(asked), settled, numThreads, cyclic(asked), heads, old(pendingRelSeqs),
                    pendingRelSeqs);
    }

    method ProcessWrite(act: Action, creation: Option<nat>)
      requires Valid() && CanRun(act, creation) && act.kind.Write?
      modifies this
      ensures Valid() && trace == old(trace) + [act] && old(asked) <= asked && pendingRelSeqs == old(pendingRelSeqs)
      ensures rel == Inherited(old(trace), old(rel), act.tid, creation)
      ensures CreatedBefore(old(trace), rel, act.tid, creation)
    {
      hide Lists, Threads, ClocksExact, TraceOk, Ordered, Justified, LogOk, ThreadsBelow, GraphAnswers,
           WriteCovered, ScCovered, NewRequests, ReasonsFrom, Inherited;
      AddAction(act, creation);
      CreatedInherits(old(trace), old(rel), act.tid, creation, rel);
      assert trace[..|trace| - 1] == old(trace);
      WModificationOrder(old(rel), old(asked));
      WriteStep(old(trace), old(rel), old(asked), act, rel, asked, numThreads);
    }

    /**
     * A read-modify-write: its read, then its place right after the write it observes, then its write. What had been
     * asked when it synchronized is seen.
     */
    method ProcessRmw(act: Action, creation: Option<nat>, settled: set<nat>)
      returns (ghost heads: seq<nat>, ghost seen: seq<Request>)
      requires Valid() && CanRun(act, creation) && act.kind.Rmw?
      modifies this
      ensures Valid() && trace == old(trace) + [act] && old(asked) <= seen <= asked
      ensures ReadByRmw(act.rf, |old(trace)|) in asked
      ensures rel == Inherited(old(trace), old(rel), act.tid, creation) + HeadEdges((set h | h in heads), |old(trace)|)
      ensures CreatedBefore(old(trace), rel, act.tid, creation)
      ensures Synced(trace, Inherited(old(trace), old(rel), act.tid, creation), mo(seen), settled, numThreads,
                     cyclic(seen), heads, old(pendingRelSeqs), pendingRelSeqs)
      ensures act.IsAcquire() && !cyclic(seen) ==> ReleasesBefore(trace, rel, act.rf, |old(trace)|)
    {
      hide Lists, Threads, ClocksExact, TraceOk, Ordered, Justified, LogOk, ThreadsBelow, Head, IsHead, GraphAnswers,
           ReadCovered, OldRequests, WriteCovered, ScCovered, NewRequests, ReasonsFrom, Synced, Inherited;
      AddAction(act, creation);
      ghost var rel0 := rel;
      assert trace[..|trace| - 1] == old(trace);
      RModificationOrder(old(rel));
      heads := ReadFrom(settled, old(rel), old(asked));
      seen := asked;
      asked := asked + [ReadByRmw(act.rf, |trace| - 1)];
      WModificationOrder(old(rel), old(asked));
      assert asked[|seen|] == ReadByRmw(act.rf, |trace| - 1);
      RmwStep(old(trace), old(rel), old(asked), act, rel0, (set h | h in heads), seen, asked, numThreads);
      CreatedInherits(old(trace), old(rel), act.tid, creation, rel);
      AcquireSynced(trace, rel0, mo(seen), settled, numThreads, cyclic(seen), heads, old(pendingRelSeqs),
                    pendingRelSeqs);
    }

    /** A fence, lock, unlock, wait, thread start, join or the like, synchronizing with any earlier actions. */
    method ProcessOther(act: Action, creation: Option<nat>, heads: seq<nat>)
      requires Valid() && CanRun(act, creation) && !act.IsAccess() && forall h :: h in heads ==> h < |trace|
      modifies this
      ensures Valid() && trace == old(trace) + [act] && asked == old(asked) && pendingRelSeqs == old(pendingRelSeqs)
      ensures rel == Inherited(old(trace), old(rel), act.tid, creation) + HeadEdges((set h | h in heads), |old(trace)|)
      ensures CreatedBefore(old(trace), rel, act.tid, creation)
      ensures forall h :: h in heads ==> Reach(rel, h, |old(trace)|)
    {
      hide Lists, Threads, ClocksExact, TraceOk, Ordered, Justified, LogOk, ThreadsBelow, GraphAnswers, Reach,
           Inherited;
      AddAction(act, creation);
      ghost var rel0 := rel;
      SynchronizeAll(heads);
      CreatedInherits(old(trace), old(rel), act.tid, creation, rel);
      IntoHeads(old(rel), rel0, (set h | h in heads), |old(trace)|);
      OtherStep(old(trace), old(rel), asked, act, rel);
      forall h | h in heads
        ensures Reach(rel, h, |old(trace)|)
      {
        ReachPair(rel, h, |old(trace)|);
      }
    }
  }

  lemma LastPropagated(tr: Trace, cvs: seq<Clock>, h: nat)
    requires |cvs| == |tr| && h < |tr| - 1
    ensures Propagated(Tids(tr), cvs, cvs[|tr| - 1 := Join(cvs[|tr| - 1], cvs[h])], h, |tr| - 1)
  {
  }

  lemma ExactTrace(tr: Trace, cvs: seq<Clock>, rel: Rel, rel': Rel)
    requires TraceOk(tr, rel) && ClocksExact(tr, cvs, rel')
    ensures TraceOk(tr, rel')
  {
  }

  lemma HeadsFit(tr: Trace, rel: Rel, rel': Rel, mo: Rel, settled: set<nat>, threads: nat, h: nat)
    requires tr != [] && TraceOk(tr, rel') && Forward(rel, |tr| - 1) && Into(rel, rel', |tr| - 1)
             && tr[|tr| - 1].IsRead()
    requires Head(tr, rel', mo, settled, threads, tr[|tr| - 1].rf, h)
    ensures h < |tr| - 1 && IsHead(tr[..|tr| - 1], rel, tr[|tr| - 1].rf, h)
  {
    hide Head, IsHead;
    var n := |tr| - 1;
    TraceReadsOk(tr, rel');
    ReadsOkAt(tr, n);
    assert tr == tr[..n] + [tr[n]];
    HeadIsHead(tr, rel', mo, settled, threads, tr[n].rf, h);
    OldHead(tr[..n], rel, tr[n], rel', tr[n].rf, h);
  }
}
