/** The execution on the modification-order graph itself: what the graph answers, and what its flag then means. */
module CheckedExecutions {
  import opened Relations
  import opened GraphTheory
  import opened GraphRuns
  import opened Coherence
  import opened Feasibility
  import opened Executions
  import opened ReleaseCompleteness
  import opened ReleaseSequences
  import opened Scans
  import opened ScanLoops

  /** A run of graph calls that makes these requests. */
  ghost predicate Makes(ts: seq<Tracking>, cs: seq<Call>, log: seq<Request>) {
    IsRun(ts, cs) && ts[|cs|].now.reqs == log
  }

  ghost predicate CanMake(log: seq<Request>) {
    exists ts: seq<Tracking>, cs: seq<Call> :: Makes(ts, cs, log)
  }

  /** The graph after a run that makes these requests. */
  ghost function GraphAfter(log: seq<Request>): (s: State)
    ensures CanMake(log) ==> exists ts: seq<Tracking>, cs: seq<Call> :: Makes(ts, cs, log) && s == ts[|cs|].now.s
  {
    if CanMake(log) then
      var ts: seq<Tracking>, cs: seq<Call> :| Makes(ts, cs, log);
      ts[|cs|].now.s
    else State([], false)
  }

  /** Its edges; for requests that no run makes, the requests themselves. */
  ghost function EdgesAfter(log: seq<Request>): Rel {
    if CanMake(log) then Pairs(GraphAfter(log).g) else Wanted(log)
  }

  /** The flag after a run that makes these requests. */
  ghost predicate CyclicAfter(log: seq<Request>) {
    if CanMake(log) then GraphAfter(log).cyclic else !Acyclic(Wanted(log))
  }

  ghost predicate Reaches(log: seq<Request>, a: nat, b: nat) {
    Reach(EdgesAfter(log), a, b)
  }

  /** What a run has asked is in the graph. */
  lemma AskedIn(ts: seq<Tracking>, cs: seq<Call>, log: seq<Request>)
    requires Makes(ts, cs, log)
    ensures Wanted(log) <= Pairs(ts[|cs|].now.s.g)
  {
    RunGood(ts, cs, |cs|);
    var s := ts[|cs|].now.s;
    forall q | q in log
      ensures PairOf(q) in Pairs(s.g)
    {
      assert Recorded(s, q);
    }
  }

  /** The graph answers as an execution expects. */
  lemma GraphServes()
    ensures GraphAnswers((log: seq<Request>) => CyclicAfter(log),
                         (log: seq<Request>, a: nat, b: nat) => Reaches(log, a, b),
                         (log: seq<Request>) => EdgesAfter(log))
  {
    hide StepsTo, Reach, Acyclic;
    forall log: seq<Request>
      ensures Wanted(log) <= EdgesAfter(log) && (!CyclicAfter(log) ==> Acyclic(EdgesAfter(log)))
    {
      if CanMake(log) {
        var ts: seq<Tracking>, cs: seq<Call> :| Makes(ts, cs, log) && GraphAfter(log) == ts[|cs|].now.s;
        AskedIn(ts, cs, log);
        RunGood(ts, cs, |cs|);
      }
    }
  }

  /**
   * After any run that makes what a coherent execution asked, the flag is down exactly if the standard admits an
   * order.
   */
  lemma RunFlag(tr: Trace, rel: Rel, asked: seq<Request>, ts: seq<Tracking>, cs: seq<Call>)
    requires Coherent(tr, rel, asked) && Makes(ts, cs, asked)
    ensures !ts[|cs|].now.s.cyclic <==> exists order: seq<nat> :: Axioms(tr, rel, order)
  {
    hide Coherent, StepsTo, Axioms;
    RunGood(ts, cs, |cs|);
    RunDecides(ts, cs, |cs|);
    var s := ts[|cs|].now.s;
    if !s.cyclic {
      var order :| TotalOrder(order, |s.g|) && Satisfies(order, asked);
      RequestsSuffice(tr, rel, asked, order);
    }
    if order: seq<nat> :| Axioms(tr, rel, order) {
      RequestsNeeded(tr, rel, asked, order);
    }
  }

  /**
   * An execution that consults the graph: at every moment its requests are a run of graph calls, the flag it sees is
   * down exactly if the standard admits a modification order, and every edge of the graph is in all such orders.
   */
  lemma FlagSeen(e: Execution)
    requires e.Valid() && forall log: seq<Request> :: e.cyclic(log) == CyclicAfter(log)
    ensures CanMake(e.asked)
    ensures !e.cyclic(e.asked) <==> exists order: seq<nat> :: Axioms(e.trace, e.rel, order)
    ensures forall order: seq<nat> :: Axioms(e.trace, e.rel, order) ==> Orients(order, EdgesAfter(e.asked))
  {
    hide Axioms, Orients, StepsTo;
    var tr, rel, asked := e.trace, e.rel, e.asked;
    CoherentLog(tr, rel, asked);
    var ts, cs := Replay(tr, asked);
    assert Makes(ts, cs, asked);
    var ts': seq<Tracking>, cs': seq<Call> :| Makes(ts', cs', asked) && GraphAfter(asked) == ts'[|cs'|].now.s;
    RunFlag(tr, rel, asked, ts', cs');
    forall order: seq<nat> | Axioms(tr, rel, order)
      ensures Orients(order, EdgesAfter(asked))
    {
      EdgesForced(tr, rel, asked, ts', cs', order);
    }
  }

  lemma CoherentLog(tr: Trace, rel: Rel, asked: seq<Request>)
    requires Coherent(tr, rel, asked)
    ensures LogOk(tr, asked)
  {
  }

  // ----- the edges are between writes -----

  /** The writes of an order, in order. */
  ghost function OnlyWrites(tr: Trace, order: seq<nat>): seq<nat> {
    if order == [] then []
    else
      var rest, x := OnlyWrites(tr, order[..|order| - 1]), order[|order| - 1];
      if x < |tr| && tr[x].IsWrite() then rest + [x] else rest
  }

  lemma {:induction false} WritesIn(tr: Trace, order: seq<nat>, x: nat)
    ensures x in OnlyWrites(tr, order) <==> x in order && x < |tr| && tr[x].IsWrite()
    decreases |order|
  {
    if order != [] {
      var k := |order| - 1;
      WritesIn(tr, order[..k], x);
      assert order == order[..k] + [order[k]];
    }
  }

  lemma {:induction false} WritesDistinct(tr: Trace, order: seq<nat>)
    requires Distinct(order)
    ensures Distinct(OnlyWrites(tr, order))
    decreases |order|
  {
    if order != [] {
      var k := |order| - 1;
      WritesDistinct(tr, order[..k]);
      WritesIn(tr, order[..k], order[k]);
    }
  }

  lemma {:induction false} WritesPrecede(tr: Trace, order: seq<nat>, a: nat, b: nat)
    requires Precedes(order, a, b) && a < |tr| && tr[a].IsWrite() && b < |tr| && tr[b].IsWrite()
    ensures Precedes(OnlyWrites(tr, order), a, b)
    decreases |order|
  {
    var i, j :| 0 <= i < j < |order| && order[i] == a && order[j] == b;
    var k := |order| - 1;
    var rest := OnlyWrites(tr, order[..k]);
    if j < k {
      assert order[..k][i] == a && order[..k][j] == b;
      WritesPrecede(tr, order[..k], a, b);
      var x, y :| 0 <= x < y < |rest| && rest[x] == a && rest[y] == b;
      assert OnlyWrites(tr, order)[x] == a && OnlyWrites(tr, order)[y] == b;
    } else {
      assert order[..k][i] == a;
      WritesIn(tr, order[..k], a);
      var x :| 0 <= x < |rest| && rest[x] == a;
      assert OnlyWrites(tr, order)[x] == a && OnlyWrites(tr, order)[|rest|] == b;
    }
  }

  lemma {:induction false} WritesAdjacent(tr: Trace, order: seq<nat>, a: nat, b: nat)
    requires Adjacent(order, a, b) && a < |tr| && tr[a].IsWrite() && b < |tr| && tr[b].IsWrite()
    ensures Adjacent(OnlyWrites(tr, order), a, b)
    decreases |order|
  {
    var i :| 0 <= i < |order| - 1 && order[i] == a && order[i + 1] == b;
    var k := |order| - 1;
    var rest, l := OnlyWrites(tr, order[..k]), OnlyWrites(tr, order);
    if i + 1 < k {
      assert order[..k][i] == a && order[..k][i + 1] == b;
      WritesAdjacent(tr, order[..k], a, b);
      var x :| 0 <= x < |rest| - 1 && rest[x] == a && rest[x + 1] == b;
      assert l[x] == a && l[x + 1] == b;
    } else {
      assert order[..k][k - 1] == a && order[..k][..k - 1] == order[..k - 1];
      assert rest[|rest| - 1] == a;
      assert l[|rest| - 1] == a && l[|rest| - 1 + 1] == b;
    }
  }

  /** The standard orders writes only. */
  lemma WritesSuffice(tr: Trace, rel: Rel, order: seq<nat>)
    requires ReadsOk(tr) && Axioms(tr, rel, order)
    ensures Axioms(tr, rel, OnlyWrites(tr, order))
  {
    hide Reach, FenceRead, FenceWrite;
    var l := OnlyWrites(tr, order);
    WritesDistinct(tr, order);
    forall a: nat, b: nat | MustRead(tr, rel, a, b) && tr[b].IsRead()
      ensures Wr(tr, a) == tr[b].rf || Precedes(l, Wr(tr, a), tr[b].rf)
    {
      MustBeWrites(tr, rel, a, b);
      if Wr(tr, a) != tr[b].rf {
        WritesPrecede(tr, order, Wr(tr, a), tr[b].rf);
      }
    }
    forall a: nat, b: nat | MustWrite(tr, rel, a, b) && tr[b].IsWrite()
      ensures Precedes(l, Wr(tr, a), b)
    {
      MustBeWrites(tr, rel, a, b);
      WritesPrecede(tr, order, Wr(tr, a), b);
    }
    forall b | 0 <= b < |tr| && tr[b].kind.Rmw?
      ensures Adjacent(l, tr[b].rf, b)
    {
      assert tr[b].IsRead();
      WritesAdjacent(tr, order, tr[b].rf, b);
    }
  }

  lemma MustBeWrites(tr: Trace, rel: Rel, a: nat, b: nat)
    requires ReadsOk(tr) && (MustRead(tr, rel, a, b) || MustWrite(tr, rel, a, b))
    ensures a < |tr| && b < |tr| && Wr(tr, a) < |tr| && tr[Wr(tr, a)].IsWrite()
    ensures tr[b].IsRead() ==> tr[b].rf < |tr| && tr[tr[b].rf].IsWrite()
  {
  }

  /** Where the standard admits an order, the edges of the graph start at writes. */
  lemma EdgesAreWrites(tr: Trace, rel: Rel, asked: seq<Request>, ts: seq<Tracking>, cs: seq<Call>, order: seq<nat>)
    requires Coherent(tr, rel, asked) && Makes(ts, cs, asked) && Axioms(tr, rel, order)
    ensures FromWrites(tr, Pairs(ts[|cs|].now.s.g))
  {
    hide Axioms, StepsTo, Ordered, Justified;
    WritesSuffice(tr, rel, order);
    var l := OnlyWrites(tr, order);
    EdgesForced(tr, rel, asked, ts, cs, l);
    forall a, b | (a, b) in Pairs(ts[|cs|].now.s.g)
      ensures a < |tr| && tr[a].IsWrite()
    {
      assert Precedes(l, a, b) && a in l;
      WritesIn(tr, order, a);
    }
  }

  // ----- what a complete search means for the acquire -----

  /** A larger happens-before relation asks for more. */
  lemma AxiomsLess(tr: Trace, rel: Rel, rel': Rel, order: seq<nat>)
    requires rel <= rel' && Axioms(tr, rel', order)
    ensures Axioms(tr, rel, order)
  {
    hide Reach, FenceRead, FenceWrite;
    forall a: nat, b: nat | MustRead(tr, rel, a, b)
      ensures MustRead(tr, rel', a, b)
    {
      if Reach(rel, a, b) {
        ReachMono(rel, rel', a, b);
      }
    }
    forall a: nat, b: nat | MustWrite(tr, rel, a, b)
      ensures MustWrite(tr, rel', a, b)
    {
      if Reach(rel, a, b) {
        ReachMono(rel, rel', a, b);
      }
    }
  }

  /** Nothing is left for later: whatever synchronizes with what the read observes comes before it in the relation. */
  ghost predicate ComesBefore(tr: Trace, rel: Rel, order: seq<nat>, h: nat, n: nat) {
    || Reach(rel, h, n)
    || exists g: nat {:trigger tr[g]} :: g < |tr| && Reach(rel, g, n)
         && tr[g].kind.Rmw? && tr[g].IsAcquire() && Synchronizes(tr, order, h, tr[g].rf)
  }

  lemma Longer(put: seq<ReleaseSeq>, x: ReleaseSeq)
    ensures put != put + [x]
  {
    assert |put| != |put + [x]|;
  }

  /**
   * An acquire whose search was complete, so that nothing was put off: all that synchronizes with it in any fitting
   * order now happens before it, or synchronizes with an acquiring read-modify-write that does.
   */
  lemma AcquireComplete(tr: Trace, rel: Rel, mo: Rel, settled: set<nat>, threads: nat, heads: seq<nat>,
                        put: seq<ReleaseSeq>, order: seq<nat>, h: nat)
    requires tr != [] && tr[|tr| - 1].IsRead() && tr[|tr| - 1].IsAcquire() && TraceOk(tr, rel) && FromWrites(tr, mo)
    requires Synced(tr, rel, mo, settled, threads, false, heads, put, put)
    requires Axioms(tr, rel + HeadEdges((set x | x in heads), |tr| - 1), order) && Orients(order, mo)
    requires Synchronizes(tr, order, h, tr[|tr| - 1].rf)
    ensures ComesBefore(tr, rel + HeadEdges((set x | x in heads), |tr| - 1), order, h, |tr| - 1)
  {
    hide TraceOk, Axioms, Orients, Synchronizes, FromWrites, Head, Judged, FoundLast, FoundCertain, Found, Reach,
         Walked;
    var n := |tr| - 1;
    var rel' := rel + HeadEdges((set x | x in heads), n);
    var complete: bool, pending: Option<Pending> :|
      && Searched(tr, rel, mo, settled, threads, tr[n].rf, false, heads, complete, pending)
      && put == put + if complete then [] else [ReleaseSeq(n, pending)];
    Longer(put, ReleaseSeq(n, pending));
    TraceReadsOk(tr, rel);
    ReadsOkAt(tr, n);
    AxiomsLess(tr, rel, rel', order);
    HeadsComplete(tr, rel, order, mo, heads, tr[n].rf, h);
    var g: nat :| g in heads && g < |tr|
      && (Reach(rel, h, g)
          || (tr[g].kind.Rmw? && tr[g].IsAcquire() && tr[g].rf < g && Synchronizes(tr, order, h, tr[g].rf)));
    assert (g, n) in rel';
    ReachPair(rel', g, n);
    if Reach(rel, h, g) {
      ReachMono(rel, rel', h, g);
      ReachTrans(rel', h, g, n);
    }
  }
}
