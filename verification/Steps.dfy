/** One whole action: its scans, its synchronization and its requests leave the execution coherent. */
module Steps {
  import opened Relations
  import opened GraphTheory
  import opened Coherence
  import opened Scans
  import opened ScanLoops

  ghost predicate ThreadsBelow(tr: Trace, threads: nat) {
    forall a :: 0 <= a < |tr| ==> tr[a].tid < threads
  }

  /** What must precede the newest action's read is asked to. */
  ghost predicate ReadOrdered(tr: Trace, rel: Rel, n: nat, asked: seq<Request>)
    requires n < |tr|
  {
    forall a: nat {:trigger MustRead(tr, rel, a, n)} :: MustRead(tr, rel, a, n) ==> MoLe(asked, Wr(tr, a), tr[n].rf)
  }

  ghost predicate WriteOrdered(tr: Trace, rel: Rel, n: nat, asked: seq<Request>)
    requires n < |tr|
  {
    forall a: nat {:trigger MustWrite(tr, rel, a, n)} :: MustWrite(tr, rel, a, n) ==> MoLe(asked, Wr(tr, a), n)
  }

  lemma ReadStepOrdered(tr: Trace, rel: Rel, asked0: seq<Request>, act: Action, rel0: Rel, heads: set<nat>,
                        asked: seq<Request>, threads: nat)
    requires TraceOk(tr, rel) && Ordered(tr, rel, asked0) && asked0 <= asked && act.IsRead() && ReadsOk(tr + [act])
    requires Into(rel, rel0, |tr|) && (forall h :: h in heads ==> h < |tr| && IsHead(tr, rel, act.rf, h))
    requires ThreadsBelow(tr + [act], threads) && ReadCovered(tr + [act], rel0, |tr|, asked, threads)
    ensures ReadOrdered(tr + [act], rel0 + HeadEdges(heads, |tr|), |tr|, asked)
  {
    hide TraceOk, Ordered, MoLe, IsHead, FenceRead, ReadsOk;
    var tr', n := tr + [act], |tr|;
    var rel' := rel0 + HeadEdges(heads, n);
    forall a: nat | MustRead(tr', rel', a, n)
      ensures MoLe(asked, Wr(tr', a), tr'[n].rf)
    {
      if FenceRead(tr', a, n) {
        assert MustRead(tr', rel0, a, n);
      } else {
        HeadsCovered(tr, rel, asked0, act, rel0, heads, asked, a);
      }
    }
  }

  lemma WriteStepOrdered(tr: Trace, rel: Rel, n: nat, asked: seq<Request>, threads: nat)
    requires n < |tr| && tr[n].kind.Write? && ThreadsBelow(tr, threads)
    requires WriteCovered(tr, rel, n, asked, threads) && ScCovered(tr, n, asked)
    ensures WriteOrdered(tr, rel, n, asked)
  {
    hide MoLe, Rule67, Reach;
    forall a: nat | MustWrite(tr, rel, a, n)
      ensures MoLe(asked, Wr(tr, a), n)
    {
      assert !OwnRmw(tr, n, tr[a].tid);
      if Reach(rel, a, n) || Rule67(tr, a, n) {
        assert WriteHit(tr, rel, n, tr[a].tid, a);
      }
    }
  }

  /** The read of a read-modify-write has covered its own thread. */
  lemma RmwStepOrdered(tr: Trace, rel: Rel, n: nat, asked: seq<Request>, threads: nat)
    requires n == |tr| - 1 && tr[n].kind.Rmw? && ThreadsBelow(tr, threads) && TraceOk(tr, rel)
    requires ReadOrdered(tr, rel, n, asked) && ReadByRmw(tr[n].rf, n) in asked
    requires WriteCovered(tr, rel, n, asked, threads) && ScCovered(tr, n, asked)
    ensures WriteOrdered(tr, rel, n, asked)
  {
    hide MoLe, Rule67, Reach, Rule4, Rule5;
    forall a: nat | MustWrite(tr, rel, a, n)
      ensures MoLe(asked, Wr(tr, a), n)
    {
      if tr[a].tid == tr[n].tid {
        assert Tids(tr)[a] == Tids(tr)[n];
        assert MustRead(tr, rel, a, n);
        MoLeAsked(asked, ReadByRmw(tr[n].rf, n));
        MoLeTrans(asked, Wr(tr, a), tr[n].rf, n);
      } else if Reach(rel, a, n) || Rule67(tr, a, n) {
        assert WriteHit(tr, rel, n, tr[a].tid, a);
      }
    }
  }

  // ----- the log -----

  lemma LogOld(tr: Trace, asked0: seq<Request>, act: Action, asked: seq<Request>)
    requires LogOk(tr, asked0) && asked0 <= asked && OldRequests(asked, |asked0|, |tr|)
    ensures LogOk(tr + [act], asked)
    ensures forall i {:trigger asked[i]} :: 0 <= i < |asked| ==> PairOf(asked[i]).0 < |tr| && PairOf(asked[i]).1 < |tr|
  {
    forall i | 0 <= i < |asked|
      ensures PairOf(asked[i]).0 < |tr| && PairOf(asked[i]).1 < |tr|
      ensures asked[i].ReadByRmw? ==> i < |asked0|
    {
      if i < |asked0| {
        assert asked[i] == asked0[i];
      }
    }
    LogLonger(tr, asked0, act, asked);
  }

  lemma LogLonger(tr: Trace, asked0: seq<Request>, act: Action, asked: seq<Request>)
    requires LogOk(tr, asked0) && asked0 <= asked
    requires forall i {:trigger asked[i]} ::
               0 <= i < |asked| ==> PairOf(asked[i]).0 <= |tr| && PairOf(asked[i]).1 <= |tr|
    requires forall i {:trigger asked[i]} :: |asked0| <= i < |asked| ==> asked[i].Before?
    ensures LogOk(tr + [act], asked)
  {
    forall i | 0 <= i < |asked| && asked[i].ReadByRmw?
      ensures i < |asked0| && asked[i] == asked0[i]
    {
    }
    forall i, j | 0 <= j < i < |asked| && asked[i].ReadByRmw?
      ensures PairOf(asked[j]).0 < asked[i].r && PairOf(asked[j]).1 < asked[i].r
    {
      assert asked[i] == asked0[i] && asked[j] == asked0[j];
    }
  }

  lemma LogReader(tr: Trace, asked: seq<Request>, rf: nat, n: nat)
    requires LogOk(tr, asked) && rf < n < |tr|
    requires forall i {:trigger asked[i]} :: 0 <= i < |asked| ==> PairOf(asked[i]).0 < n && PairOf(asked[i]).1 < n
    ensures LogOk(tr, asked + [ReadByRmw(rf, n)])
  {
    var asked' := asked + [ReadByRmw(rf, n)];
    forall i, j | 0 <= j < i < |asked'| && asked'[i].ReadByRmw?
      ensures PairOf(asked'[j]).0 < asked'[i].r && PairOf(asked'[j]).1 < asked'[i].r
    {
      assert asked'[j] == asked[j];
      if i < |asked| {
        assert asked'[i] == asked[i];
      }
    }
  }

  lemma LogNew(tr: Trace, asked0: seq<Request>, asked: seq<Request>, n: nat)
    requires LogOk(tr, asked0) && asked0 <= asked && NewRequests(asked, |asked0|, n) && n < |tr|
    ensures LogOk(tr, asked)
  {
    forall i | 0 <= i < |asked|
      ensures PairOf(asked[i]).0 < |tr| && PairOf(asked[i]).1 < |tr|
      ensures asked[i].ReadByRmw? ==> i < |asked0|
    {
      if i < |asked0| {
        assert asked[i] == asked0[i];
      }
    }
    forall i, j | 0 <= j < i < |asked| && asked[i].ReadByRmw?
      ensures PairOf(asked[j]).0 < asked[i].r && PairOf(asked[j]).1 < asked[i].r
    {
      assert asked[i] == asked0[i] && asked[j] == asked0[j];
    }
  }

  // ----- reasons -----

  lemma JustifiedJoin(tr: Trace, rel: Rel, asked: seq<Request>, asked': seq<Request>, k: nat)
    requires k <= |asked| && asked <= asked' && JustifiedFrom(tr, rel, asked, k)
             && JustifiedFrom(tr, rel, asked', |asked|)
    ensures JustifiedFrom(tr, rel, asked', k)
  {
    forall i, order | k <= i < |asked'| && Axioms(tr, rel, order)
      ensures Meets(order, asked'[i])
    {
      if i < |asked| {
        assert asked'[i] == asked[i];
      }
    }
  }

  lemma ReaderJustified(tr: Trace, rel: Rel, asked: seq<Request>, n: nat)
    requires n < |tr| && tr[n].kind.Rmw?
    ensures JustifiedFrom(tr, rel, asked + [ReadByRmw(tr[n].rf, n)], |asked|)
  {
  }

  // ----- the three kinds of step -----

  /** The state after an action of a coherent execution has been appended, with only its parent before it. */
  ghost predicate Appended(tr: Trace, rel: Rel, asked0: seq<Request>, act: Action, rel0: Rel, threads: nat) {
    && Coherent(tr, rel, asked0) && Into(rel, rel0, |tr|)
    && TraceOk(tr + [act], rel0) && ThreadsBelow(tr + [act], threads)
  }

  lemma IntoHeads(rel: Rel, rel0: Rel, heads: set<nat>, n: nat)
    requires Into(rel, rel0, n) && forall h :: h in heads ==> h < n
    ensures Into(rel, rel0 + HeadEdges(heads, n), n)
  {
  }

  lemma ReadStep(tr: Trace, rel: Rel, asked0: seq<Request>, act: Action, rel0: Rel, heads: set<nat>,
                 asked: seq<Request>, threads: nat)
    requires Appended(tr, rel, asked0, act, rel0, threads) && asked0 <= asked && act.kind.Read?
    requires forall h :: h in heads ==> h < |tr| && IsHead(tr, rel, act.rf, h)
    requires ReadCovered(tr + [act], rel0, |tr|, asked, threads) && OldRequests(asked, |asked0|, |tr|)
    requires ReasonsFrom(tr + [act], rel0, |tr|, asked, |asked0|)
    requires TraceOk(tr + [act], rel0 + HeadEdges(heads, |tr|))
    ensures Coherent(tr + [act], rel0 + HeadEdges(heads, |tr|), asked)
  {
    hide TraceOk, Ordered, Justified, JustifiedFrom, LogOk, IsHead, ReadCovered, OldRequests, ReasonsFrom, ThreadsBelow;
    var rel' := rel0 + HeadEdges(heads, |tr|);
    TraceReadsOk(tr + [act], rel');
    ReadStepOrdered(tr, rel, asked0, act, rel0, heads, asked, threads);
    ReasonsJustify(tr + [act], rel0, rel', |tr|, asked, |asked0|);
    LogOld(tr, asked0, act, asked);
    IntoHeads(rel, rel0, heads, |tr|);
    assert NewOrdered(tr + [act], rel', asked);
    StepCoherent(tr, rel, asked0, act, rel', asked);
  }

  lemma WriteStep(tr: Trace, rel: Rel, asked0: seq<Request>, act: Action, rel0: Rel, asked: seq<Request>, threads: nat)
    requires Appended(tr, rel, asked0, act, rel0, threads) && asked0 <= asked && act.kind.Write?
    requires WriteCovered(tr + [act], rel0, |tr|, asked, threads) && ScCovered(tr + [act], |tr|, asked)
    requires NewRequests(asked, |asked0|, |tr|) && ReasonsFrom(tr + [act], rel0, |tr|, asked, |asked0|)
    ensures Coherent(tr + [act], rel0, asked)
  {
    hide TraceOk, Ordered, Justified, JustifiedFrom, LogOk, WriteCovered, ScCovered, NewRequests, ReasonsFrom,
         ThreadsBelow;
    WriteStepOrdered(tr + [act], rel0, |tr|, asked, threads);
    ReasonsJustify(tr + [act], rel0, rel0, |tr|, asked, |asked0|);
    LogSame(tr, asked0, act);
    LogNew(tr + [act], asked0, asked, |tr|);
    assert NewOrdered(tr + [act], rel0, asked);
    StepCoherent(tr, rel, asked0, act, rel0, asked);
  }

  lemma LogSame(tr: Trace, asked: seq<Request>, act: Action)
    requires LogOk(tr, asked)
    ensures LogOk(tr + [act], asked)
  {
  }

  /** A read-modify-write: its read, its place after the write it observes, and its write. */
  lemma RmwStep(tr: Trace, rel: Rel, asked0: seq<Request>, act: Action, rel0: Rel, heads: set<nat>,
                asked1: seq<Request>, asked: seq<Request>, threads: nat)
    requires Appended(tr, rel, asked0, act, rel0, threads) && asked0 <= asked1 && act.kind.Rmw?
    requires forall h :: h in heads ==> h < |tr| && IsHead(tr, rel, act.rf, h)
    requires ReadCovered(tr + [act], rel0, |tr|, asked1, threads) && OldRequests(asked1, |asked0|, |tr|)
    requires ReasonsFrom(tr + [act], rel0, |tr|, asked1, |asked0|)
    requires asked1 + [ReadByRmw(act.rf, |tr|)] <= asked
    requires var rel' := rel0 + HeadEdges(heads, |tr|);
             && TraceOk(tr + [act], rel')
             && WriteCovered(tr + [act], rel', |tr|, asked, threads) && ScCovered(tr + [act], |tr|, asked)
             && NewRequests(asked, |asked1| + 1, |tr|) && ReasonsFrom(tr + [act], rel', |tr|, asked, |asked1| + 1)
    ensures Coherent(tr + [act], rel0 + HeadEdges(heads, |tr|), asked)
  {
    hide TraceOk, Ordered, Justified, JustifiedFrom, LogOk, IsHead, ReadCovered, WriteCovered, ScCovered, OldRequests,
         NewRequests, ReasonsFrom, ThreadsBelow, ReadOrdered, WriteOrdered;
    var rel' := rel0 + HeadEdges(heads, |tr|);
    var asked2 := asked1 + [ReadByRmw(act.rf, |tr|)];
    RmwOrdered(tr, rel, asked0, act, rel0, heads, asked1, asked, threads);
    RmwJustified(tr, rel0, act, rel', asked0, asked1, asked);
    RmwLog(tr, asked0, act, asked1, asked, rel');
    IntoHeads(rel, rel0, heads, |tr|);
    StepCoherent(tr, rel, asked0, act, rel', asked);
  }

  lemma ReadOrderedMono(tr: Trace, rel: Rel, n: nat, asked: seq<Request>, asked': seq<Request>)
    requires n < |tr| && ReadOrdered(tr, rel, n, asked) && asked <= asked'
    ensures ReadOrdered(tr, rel, n, asked')
  {
    hide MoLe;
    forall a: nat | MustRead(tr, rel, a, n)
      ensures MoLe(asked', Wr(tr, a), tr[n].rf)
    {
      MoLeMono(asked, asked', Wr(tr, a), tr[n].rf);
    }
  }

  lemma RmwOrdered(tr: Trace, rel: Rel, asked0: seq<Request>, act: Action, rel0: Rel, heads: set<nat>,
                   asked1: seq<Request>, asked: seq<Request>, threads: nat)
    requires Appended(tr, rel, asked0, act, rel0, threads) && asked0 <= asked1 && act.kind.Rmw?
    requires forall h :: h in heads ==> h < |tr| && IsHead(tr, rel, act.rf, h)
    requires ReadCovered(tr + [act], rel0, |tr|, asked1, threads)
    requires asked1 + [ReadByRmw(act.rf, |tr|)] <= asked
    requires var rel' := rel0 + HeadEdges(heads, |tr|);
             && TraceOk(tr + [act], rel')
             && WriteCovered(tr + [act], rel', |tr|, asked, threads) && ScCovered(tr + [act], |tr|, asked)
    ensures NewOrdered(tr + [act], rel0 + HeadEdges(heads, |tr|), asked)
  {
    hide TraceOk, Ordered, Justified, LogOk, IsHead, ReadCovered, WriteCovered, ScCovered, ThreadsBelow;
    var rel', n := rel0 + HeadEdges(heads, |tr|), |tr|;
    TraceReadsOk(tr + [act], rel');
    ReadStepOrdered(tr, rel, asked0, act, rel0, heads, asked1, threads);
    ReadOrderedMono(tr + [act], rel', n, asked1, asked);
    assert asked[|asked1|] == ReadByRmw(act.rf, n);
    RmwStepOrdered(tr + [act], rel', n, asked, threads);
  }

  lemma RmwJustified(tr: Trace, rel0: Rel, act: Action, rel': Rel, asked0: seq<Request>, asked1: seq<Request>,
                     asked: seq<Request>)
    requires act.kind.Rmw? && asked0 <= asked1 && rel0 <= rel'
    requires ReasonsFrom(tr + [act], rel0, |tr|, asked1, |asked0|)
    requires asked1 + [ReadByRmw(act.rf, |tr|)] <= asked && ReasonsFrom(tr + [act], rel', |tr|, asked, |asked1| + 1)
    ensures JustifiedFrom(tr + [act], rel', asked, |asked0|)
  {
    hide ReasonsFrom, JustifiedFrom;
    var tr', n := tr + [act], |tr|;
    var asked2 := asked1 + [ReadByRmw(act.rf, n)];
    ReasonsJustify(tr', rel0, rel', n, asked1, |asked0|);
    ReaderJustified(tr', rel', asked1, n);
    JustifiedJoin(tr', rel', asked1, asked2, |asked0|);
    ReasonsJustify(tr', rel', rel', n, asked, |asked2|);
    JustifiedJoin(tr', rel', asked2, asked, |asked0|);
  }

  lemma RmwLog(tr: Trace, asked0: seq<Request>, act: Action, asked1: seq<Request>, asked: seq<Request>, rel': Rel)
    requires LogOk(tr, asked0) && asked0 <= asked1 && OldRequests(asked1, |asked0|, |tr|)
    requires act.kind.Rmw? && TraceOk(tr + [act], rel')
    requires asked1 + [ReadByRmw(act.rf, |tr|)] <= asked && NewRequests(asked, |asked1| + 1, |tr|)
    ensures LogOk(tr + [act], asked)
  {
    hide LogOk, OldRequests, NewRequests;
    LogOld(tr, asked0, act, asked1);
    assert (tr + [act])[|tr|].rf < |tr|;
    LogReader(tr + [act], asked1, act.rf, |tr|);
    LogNew(tr + [act], asked1 + [ReadByRmw(act.rf, |tr|)], asked, |tr|);
  }

  /** Fences, locks, joins and the like order nothing themselves, whatever they synchronize with. */
  lemma OtherStep(tr: Trace, rel: Rel, asked: seq<Request>, act: Action, rel': Rel)
    requires Coherent(tr, rel, asked) && Into(rel, rel', |tr|) && TraceOk(tr + [act], rel') && !act.IsAccess()
    ensures Coherent(tr + [act], rel', asked)
  {
    hide TraceOk, Ordered, Justified, LogOk;
    LogSame(tr, asked, act);
    assert NewOrdered(tr + [act], rel', asked);
    StepCoherent(tr, rel, asked, act, rel', asked);
  }
}
