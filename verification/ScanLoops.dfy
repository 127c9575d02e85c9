/** The backward scans over one thread and what they cover, action by action. */
module ScanLoops {
  import opened Relations
  import opened GraphTheory
  import opened Clocks
  import opened HappensBefore
  import opened Coherence
  import opened Scans

  /** The actions of a trace on one location by one thread, oldest first. */
  ghost predicate IsList(tr: Trace, l: seq<nat>, loc: nat, t: nat) {
    && (forall i, j :: 0 <= i < j < |l| ==> l[i] < l[j])
    && (forall a: nat :: a in l <==> a < |tr| && tr[a].IsAccess() && tr[a].loc == loc && tr[a].tid == t)
  }

  /** f is the last seq_cst fence of thread t before the given point. */
  ghost predicate IsLastFence(tr: Trace, t: nat, before: nat, f: Option<nat>) {
    match f
    case Some(x) =>
      && x < before && x < |tr| && tr[x].IsScFence() && tr[x].tid == t
      && forall y :: x < y < before && y < |tr| ==> !(tr[y].IsScFence() && tr[y].tid == t)
    case None => forall y :: 0 <= y < before && y < |tr| ==> !(tr[y].IsScFence() && tr[y].tid == t)
  }

  method LastScFence(tr: Trace, t: nat, before: nat) returns (f: Option<nat>)
    requires before <= |tr|
    ensures IsLastFence(tr, t, before, f)
  {
    var k := before;
    while k > 0
      invariant 0 <= k <= before
      invariant forall y :: k <= y < before ==> !(tr[y].IsScFence() && tr[y].tid == t)
    {
      if tr[k - 1].IsScFence() && tr[k - 1].tid == t {
        return Some(k - 1);
      }
      k := k - 1;
    }
    return None;
  }

  predicate Earlier(a: nat, f: Option<nat>) {
    f.Some? && a < f.value
  }

  /** The three last fences a scan of thread t consults decide the fence rules. */
  lemma FencesDecide(tr: Trace, n: nat, t: nat, a: nat, mine: Option<nat>, theirs: Option<nat>, before: Option<nat>)
    requires a < n < |tr| && tr[a].tid == t && !tr[n].kind.Fence?
    requires IsLastFence(tr, tr[n].tid, n, mine) && IsLastFence(tr, t, n, theirs)
    requires if mine.Some? then IsLastFence(tr, t, mine.value, before) else before == None
    ensures Rule4(tr, a, n) <==> tr[a].IsSeqCst() && Earlier(a, mine)
    ensures Rule5(tr, a, n) <==> tr[n].IsSeqCst() && Earlier(a, theirs)
    ensures Rule67(tr, a, n) <==> Earlier(a, before)
  {
    if tr[a].IsSeqCst() && Earlier(a, mine) {
      assert a < mine.value < n;
    }
    if tr[n].IsSeqCst() && Earlier(a, theirs) {
      assert a < theirs.value < n;
    }
    if Earlier(a, before) {
      assert a < before.value < mine.value < n;
    }
    if Rule67(tr, a, n) {
      var x, y :| a < x < y < n && tr[x].IsScFence() && tr[x].tid == tr[a].tid && tr[y].IsScFence()
        && tr[y].tid == tr[n].tid;
      assert y <= mine.value;
    }
  }

  /** Clocks decide happens-before on the trace. */
  ghost predicate ClocksExact(tr: Trace, cvs: seq<Clock>, rel: Rel) {
    Exact(Tids(tr), cvs, rel)
  }

  predicate HbTest(tr: Trace, cvs: seq<Clock>, a: nat, b: nat)
    requires a < |tr| && b < |cvs|
  {
    a + 1 <= At(cvs[b], tr[a].tid)
  }

  lemma HbTestExact(tr: Trace, cvs: seq<Clock>, rel: Rel, a: nat, b: nat)
    requires ClocksExact(tr, cvs, rel) && a < |tr| && b < |tr|
    ensures HbTest(tr, cvs, a, b) <==> Reach(rel, a, b)
  {
    assert Hb(Tids(tr), cvs, a, b) <==> Reach(rel, a, b);
  }

  /** Whether the code adds an edge for a write because of fences. */
  predicate FenceTest(tr: Trace, n: nat, a: nat, mine: Option<nat>, theirs: Option<nat>, before: Option<nat>)
    requires a < |tr| && n < |tr|
  {
    || (tr[n].IsSeqCst() && Earlier(a, theirs))
    || (tr[a].IsSeqCst() && Earlier(a, mine))
    || Earlier(a, before)
  }

  /** The fences looked up for a scan of thread t; the reader's own thread needs no second one. */
  ghost predicate FencesFor(tr: Trace, n: nat, t: nat, mine: Option<nat>, theirs: Option<nat>, before: Option<nat>) {
    && n < |tr|
    && IsLastFence(tr, tr[n].tid, n, mine)
    && (if t == tr[n].tid then theirs == None else IsLastFence(tr, t, n, theirs))
    && (if mine.Some? then IsLastFence(tr, t, mine.value, before) else before == None)
  }

  lemma ReadHitTest(tr: Trace, cvs: seq<Clock>, rel: Rel, n: nat, t: nat, a: nat,
                    mine: Option<nat>, theirs: Option<nat>, before: Option<nat>)
    requires TraceOk(tr, rel) && ClocksExact(tr, cvs, rel) && FencesFor(tr, n, t, mine, theirs, before)
    requires a < n && tr[n].IsRead() && SameVar(tr, a, n) && tr[a].tid == t
    ensures ReadHit(tr, rel, n, t, a) <==>
            if a == tr[n].rf then HbTest(tr, cvs, a, n)
            else (tr[a].IsWrite() && FenceTest(tr, n, a, mine, theirs, before)) || HbTest(tr, cvs, a, n)
  {
    HbTestExact(tr, cvs, rel, a, n);
    if t == tr[n].tid {
      assert Tids(tr)[a] == Tids(tr)[n] && Reach(rel, a, n);
    } else {
      FencesDecide(tr, n, t, a, mine, theirs, before);
    }
  }

  /** Goes back through a thread's accesses to the most recent one that must precede the read n. */
  method ReadScan(tr: Trace, cvs: seq<Clock>, list: seq<nat>, n: nat, t: nat,
                  mine: Option<nat>, theirs: Option<nat>, before: Option<nat>, ghost rel: Rel)
    returns (stop: Option<nat>)
    requires TraceOk(tr, rel) && ClocksExact(tr, cvs, rel) && FencesFor(tr, n, t, mine, theirs, before)
    requires n == |tr| - 1 && |cvs| == |tr| && tr[n].IsRead() && IsList(tr, list, tr[n].loc, t)
    ensures IsReadStop(tr, rel, n, t, stop)
  {
    hide TraceOk, ClocksExact, FencesFor, ReadHit;
    var rf, k := tr[n].rf, |list|;
    while k > 0
      invariant 0 <= k <= |list|
      invariant forall j :: k <= j < |list| && list[j] < n ==> !ReadHit(tr, rel, n, t, list[j])
    {
      k := k - 1;
      var act := list[k];
      assert act in list;
      if act == n {
        continue;
      }
      ReadHitTest(tr, cvs, rel, n, t, act, mine, theirs, before);
      if act == rf {
        if HbTest(tr, cvs, act, n) {
          StopAt(tr, rel, list, n, t, k);
          return Some(act);
        }
        continue;
      }
      if tr[act].IsWrite() && FenceTest(tr, n, act, mine, theirs, before) {
        StopAt(tr, rel, list, n, t, k);
        return Some(act);
      }
      if HbTest(tr, cvs, act, n) {
        StopAt(tr, rel, list, n, t, k);
        return Some(act);
      }
    }
    NoStop(tr, rel, list, n, t);
    return None;
  }

  lemma StopAt(tr: Trace, rel: Rel, list: seq<nat>, n: nat, t: nat, k: nat)
    requires n < |tr| && IsList(tr, list, tr[n].loc, t) && k < |list| && ReadHit(tr, rel, n, t, list[k])
    requires forall j :: k < j < |list| && list[j] < n ==> !ReadHit(tr, rel, n, t, list[j])
    ensures IsReadStop(tr, rel, n, t, Some(list[k]))
  {
    forall a: nat | list[k] < a < n
      ensures !ReadHit(tr, rel, n, t, a)
    {
      if a in list {
        var j :| 0 <= j < |list| && list[j] == a;
        assert k < j;
      }
    }
  }

  lemma NoStop(tr: Trace, rel: Rel, list: seq<nat>, n: nat, t: nat)
    requires n < |tr| && IsList(tr, list, tr[n].loc, t)
    requires forall j :: 0 <= j < |list| && list[j] < n ==> !ReadHit(tr, rel, n, t, list[j])
    ensures IsReadStop(tr, rel, n, t, None)
  {
    forall a: nat | a < n
      ensures !ReadHit(tr, rel, n, t, a)
    {
      if a in list {
        var j :| 0 <= j < |list| && list[j] == a;
      }
    }
  }

  lemma WriteHitTest(tr: Trace, cvs: seq<Clock>, rel: Rel, n: nat, t: nat, a: nat, mine: Option<nat>,
                     before: Option<nat>)
    requires TraceOk(tr, rel) && ClocksExact(tr, cvs, rel) && WriteFences(tr, n, t, mine, before)
    requires a < n && tr[n].IsWrite() && SameVar(tr, a, n) && tr[a].tid == t
    ensures WriteHit(tr, rel, n, t, a) <==> (tr[a].IsWrite() && Earlier(a, before)) || HbTest(tr, cvs, a, n)
  {
    HbTestExact(tr, cvs, rel, a, n);
    if t == tr[n].tid {
      assert Tids(tr)[a] == Tids(tr)[n] && Reach(rel, a, n);
    } else {
      if Rule67(tr, a, n) {
        var x, y :| a < x < y < n && tr[x].IsScFence() && tr[x].tid == tr[a].tid && tr[y].IsScFence()
          && tr[y].tid == tr[n].tid;
        assert y <= mine.value;
      }
      if Earlier(a, before) {
        assert a < before.value < mine.value < n;
      }
    }
  }

  ghost predicate WriteFences(tr: Trace, n: nat, t: nat, mine: Option<nat>, before: Option<nat>) {
    && n < |tr|
    && IsLastFence(tr, tr[n].tid, n, mine)
    && (if mine.Some? && t != tr[n].tid then IsLastFence(tr, t, mine.value, before) else before == None)
  }

  lemma NewestIsLast(tr: Trace, list: seq<nat>, n: nat, t: nat)
    requires n == |tr| - 1 && tr[n].IsAccess() && tr[n].tid == t && IsList(tr, list, tr[n].loc, t)
    ensures |list| > 0 && list[|list| - 1] == n
  {
    assert n in list;
    var i :| 0 <= i < |list| && list[i] == n;
    assert list[|list| - 1] in list;
    if i < |list| - 1 {
      assert list[i] < list[|list| - 1];
    }
  }

  /** The scan of a read-modify-write's own thread stops at once: its read has covered it. */
  predicate OwnRmw(tr: Trace, n: nat, t: nat)
    requires n < |tr|
  {
    tr[n].kind.Rmw? && t == tr[n].tid
  }

  /** Goes back through a thread's accesses to the most recent one that must precede the write n. */
  method WriteScan(tr: Trace, cvs: seq<Clock>, list: seq<nat>, n: nat, t: nat,
                   mine: Option<nat>, before: Option<nat>, ghost rel: Rel)
    returns (stop: Option<nat>)
    requires TraceOk(tr, rel) && ClocksExact(tr, cvs, rel) && WriteFences(tr, n, t, mine, before)
    requires n == |tr| - 1 && |cvs| == |tr| && tr[n].IsWrite() && IsList(tr, list, tr[n].loc, t)
    ensures if OwnRmw(tr, n, t) then stop == None else IsWriteStop(tr, rel, n, t, stop)
  {
    hide TraceOk, ClocksExact, WriteFences, WriteHit;
    if t == tr[n].tid {
      NewestIsLast(tr, list, n, t);
    }
    var k := |list|;
    while k > 0
      invariant 0 <= k <= |list|
      invariant OwnRmw(tr, n, t) ==> k == |list|
      invariant forall j :: k <= j < |list| && list[j] < n ==> !WriteHit(tr, rel, n, t, list[j])
    {
      k := k - 1;
      var act := list[k];
      assert act in list;
      if act == n {
        if tr[n].kind.Rmw? {
          return None;
        }
        continue;
      }
      WriteHitTest(tr, cvs, rel, n, t, act, mine, before);
      if Earlier(act, before) && tr[act].IsWrite() {
        WriteStopAt(tr, rel, list, n, t, k);
        return Some(act);
      }
      if HbTest(tr, cvs, act, n) {
        WriteStopAt(tr, rel, list, n, t, k);
        return Some(act);
      }
    }
    WriteNoStop(tr, rel, list, n, t);
    return None;
  }

  lemma WriteStopAt(tr: Trace, rel: Rel, list: seq<nat>, n: nat, t: nat, k: nat)
    requires n < |tr| && IsList(tr, list, tr[n].loc, t) && k < |list| && WriteHit(tr, rel, n, t, list[k])
    requires forall j :: k < j < |list| && list[j] < n ==> !WriteHit(tr, rel, n, t, list[j])
    ensures IsWriteStop(tr, rel, n, t, Some(list[k]))
  {
    forall a: nat | list[k] < a < n
      ensures !WriteHit(tr, rel, n, t, a)
    {
      if a in list {
        var j :| 0 <= j < |list| && list[j] == a;
        assert k < j;
      }
    }
  }

  lemma WriteNoStop(tr: Trace, rel: Rel, list: seq<nat>, n: nat, t: nat)
    requires n < |tr| && IsList(tr, list, tr[n].loc, t)
    requires forall j :: 0 <= j < |list| && list[j] < n ==> !WriteHit(tr, rel, n, t, list[j])
    ensures IsWriteStop(tr, rel, n, t, None)
  {
    forall a: nat | a < n
      ensures !WriteHit(tr, rel, n, t, a)
    {
      if a in list {
        var j :| 0 <= j < |list| && list[j] == a;
      }
    }
  }

  ghost predicate ReadCovered(tr: Trace, rel: Rel, n: nat, asked: seq<Request>, threads: nat)
    requires n < |tr|
  {
    forall a: nat {:trigger MustRead(tr, rel, a, n)} ::
      MustRead(tr, rel, a, n) && tr[a].tid < threads ==> MoLe(asked, Wr(tr, a), tr[n].rf)
  }

  ghost predicate WriteCovered(tr: Trace, rel: Rel, n: nat, asked: seq<Request>, threads: nat)
    requires n < |tr|
  {
    forall a: nat {:trigger tr[a]} ::
      a < n && tr[a].tid < threads && !OwnRmw(tr, n, tr[a].tid) && WriteHit(tr, rel, n, tr[a].tid, a) ==>
        MoLe(asked, Wr(tr, a), n)
  }

  /** Requests with reasons that only order older writes. */
  ghost predicate OldRequests(asked: seq<Request>, k: nat, n: nat) {
    forall i {:trigger asked[i]} :: k <= i < |asked| ==> asked[i].Before? && asked[i].a < n && asked[i].b < n
  }

  lemma ReadThreadCovered(tr: Trace, rel: Rel, asked0: seq<Request>, act: Action, rel': Rel, t: nat,
                          stop: Option<nat>, asked: seq<Request>)
    requires TraceOk(tr, rel) && Ordered(tr, rel, asked0) && asked0 <= asked && act.IsRead() && ReadsOk(tr + [act])
    requires IsReadStop(tr + [act], rel', |tr|, t, stop) && (stop.Some? ==> stop.value < |tr|)
             && ReadCovered(tr + [act], rel', |tr|, asked, t)
    requires ReasonsFrom(tr + [act], rel', |tr|, asked, |asked0|) && OldRequests(asked, |asked0|, |tr|)
    ensures var asked' := asked + StopRequest(tr + [act], stop, act.rf);
            && ReadCovered(tr + [act], rel', |tr|, asked', t + 1)
            && ReasonsFrom(tr + [act], rel', |tr|, asked', |asked0|) && OldRequests(asked', |asked0|, |tr|)
  {
    hide TraceOk, Ordered, FenceRead, Reach, MoLe, Reason, IsReadStop, ReadsOk, StopRequest;
    var tr', n := tr + [act], |tr|;
    var new_ := StopRequest(tr', stop, act.rf);
    var asked' := asked + new_;
    forall a: nat | MustRead(tr', rel', a, n) && tr'[a].tid < t + 1
      ensures MoLe(asked', Wr(tr', a), tr'[n].rf)
    {
      assert tr'[a] == tr[a] && tr'[n] == act;
      if tr'[a].tid < t {
        MoLeMono(asked, asked', Wr(tr', a), act.rf);
      } else {
        ReadStopOrders(tr, rel, asked0, act, rel', t, stop, asked', a);
      }
    }
    forall i | |asked0| <= i < |asked'|
      ensures Reason(tr', rel', n, asked'[i])
      ensures asked'[i].Before? && asked'[i].a < n && asked'[i].b < n
    {
      if i < |asked| {
        assert asked'[i] == asked[i];
      } else {
        assert asked'[i] == new_[i - |asked|] && asked'[i] in new_;
        StopRequestForm(tr', stop, act.rf, asked'[i]);
        ReadStopReason(tr', rel', n, t, stop, asked'[i]);
        ReadsOkAt(tr', n);
      }
    }
  }

  /** Requests that put older writes before n. */
  ghost predicate NewRequests(asked: seq<Request>, k: nat, n: nat) {
    forall i {:trigger asked[i]} :: k <= i < |asked| ==> asked[i].Before? && asked[i].a < n && asked[i].b == n
  }

  lemma WriteThreadCovered(tr: Trace, rel: Rel, asked0: seq<Request>, act: Action, rel': Rel, t: nat, stop: Option<nat>,
                           asked: seq<Request>, k: nat)
    requires TraceOk(tr, rel) && Ordered(tr, rel, asked0) && asked0 <= asked && act.IsWrite() && ReadsOk(tr + [act])
             && k <= |asked|
    requires if OwnRmw(tr + [act], |tr|, t) then stop == None else IsWriteStop(tr + [act], rel', |tr|, t, stop)
    requires (stop.Some? ==> stop.value < |tr|) && WriteCovered(tr + [act], rel', |tr|, asked, t)
    requires ReasonsFrom(tr + [act], rel', |tr|, asked, k) && NewRequests(asked, k, |tr|)
    ensures var asked' := asked + StopRequest(tr + [act], stop, |tr|);
            && WriteCovered(tr + [act], rel', |tr|, asked', t + 1)
            && ReasonsFrom(tr + [act], rel', |tr|, asked', k) && NewRequests(asked', k, |tr|)
  {
    hide TraceOk, Ordered, WriteHit, Reach, MoLe, Reason, IsWriteStop, ReadsOk, StopRequest;
    var tr', n := tr + [act], |tr|;
    var new_ := StopRequest(tr', stop, n);
    var asked' := asked + new_;
    forall a: nat | a < n && tr'[a].tid < t + 1 && !OwnRmw(tr', n, tr'[a].tid) && WriteHit(tr', rel', n, tr'[a].tid, a)
      ensures MoLe(asked', Wr(tr', a), n)
    {
      assert tr'[a] == tr[a] && tr'[n] == act;
      if tr'[a].tid < t {
        MoLeMono(asked, asked', Wr(tr', a), n);
      } else {
        WriteStopOrders(tr, rel, asked0, act, rel', t, stop, asked', a);
      }
    }
    forall i | k <= i < |asked'|
      ensures Reason(tr', rel', n, asked'[i])
      ensures asked'[i].Before? && asked'[i].a < n && asked'[i].b == n
    {
      if i < |asked| {
        assert asked'[i] == asked[i];
      } else {
        assert asked'[i] == new_[i - |asked|] && asked'[i] in new_;
        StopRequestForm(tr', stop, n, asked'[i]);
        WriteStopReason(tr', rel', n, t, stop, asked'[i]);
      }
    }
  }

  /** The last seq_cst write of n's location before n. */
  ghost predicate IsLastScWrite(tr: Trace, n: nat, w: Option<nat>)
    requires n < |tr|
  {
    match w
    case Some(x) =>
      && x < n && tr[x].IsScWrite() && tr[x].loc == tr[n].loc
      && forall y :: x < y < n ==> !(tr[y].IsScWrite() && tr[y].loc == tr[n].loc)
    case None => forall y :: 0 <= y < n ==> !(tr[y].IsScWrite() && tr[y].loc == tr[n].loc)
  }

  method LastScWrite(tr: Trace, n: nat) returns (w: Option<nat>)
    requires n < |tr|
    ensures IsLastScWrite(tr, n, w)
  {
    var k := n;
    while k > 0
      invariant 0 <= k <= n
      invariant forall y :: k <= y < n ==> !(tr[y].IsScWrite() && tr[y].loc == tr[n].loc)
    {
      if tr[k - 1].IsScWrite() && tr[k - 1].loc == tr[n].loc {
        return Some(k - 1);
      }
      k := k - 1;
    }
    return None;
  }

  /** Every older seq_cst write of the location is before the newest one. */
  ghost predicate ScCovered(tr: Trace, n: nat, asked: seq<Request>)
    requires n < |tr|
  {
    tr[n].IsSeqCst() ==>
      forall a: nat {:trigger tr[a]} :: a < n && tr[a].IsScWrite() && tr[a].loc == tr[n].loc ==> MoLe(asked, a, n)
  }

  lemma ScWriteCovered(tr: Trace, rel: Rel, asked0: seq<Request>, act: Action, w: Option<nat>, asked: seq<Request>)
    requires TraceOk(tr, rel) && Ordered(tr, rel, asked0) && asked0 <= asked && act.IsWrite()
    requires IsLastScWrite(tr + [act], |tr|, w) && (w.Some? ==> Before(w.value, |tr|) in asked)
    ensures ScCovered(tr + [act], |tr|, asked)
  {
    var tr', n := tr + [act], |tr|;
    forall a: nat | tr'[n].IsSeqCst() && a < n && tr'[a].IsScWrite() && tr'[a].loc == tr'[n].loc
      ensures MoLe(asked, a, n)
    {
      var x := w.value;
      assert tr'[a] == tr[a] && tr'[x] == tr[x];
      MoLeAsked(asked, Before(x, n));
      if a < x {
        assert MustWrite(tr, rel, a, x);
        MoLeMono(asked0, asked, a, x);
        MoLeTrans(asked, a, x, n);
      }
    }
  }

  lemma ReadsOkAt(tr: Trace, n: nat)
    requires ReadsOk(tr) && n < |tr| && tr[n].IsRead()
    ensures tr[n].rf < n && tr[tr[n].rf].IsWrite() && tr[tr[n].rf].loc == tr[n].loc
  {
  }

  lemma StopRequestForm(tr: Trace, stop: Option<nat>, target: nat, q: Request)
    requires stop.Some? ==> stop.value < |tr|
    requires q in StopRequest(tr, stop, target)
    ensures q.Before? && q.b == target && stop.Some?
  {
  }

  lemma ScCoveredMono(tr: Trace, n: nat, asked: seq<Request>, asked': seq<Request>)
    requires n < |tr| && ScCovered(tr, n, asked) && asked <= asked'
    ensures ScCovered(tr, n, asked')
  {
    forall a: nat | tr[n].IsSeqCst() && a < n && tr[a].IsScWrite() && tr[a].loc == tr[n].loc
      ensures MoLe(asked', a, n)
    {
      MoLeMono(asked, asked', a, n);
    }
  }

  lemma HitBefore(tr: Trace, rel: Rel, n: nat, t: nat, a: nat)
    requires n < |tr| && (ReadHit(tr, rel, n, t, a) || WriteHit(tr, rel, n, t, a))
    ensures a < n
  {
  }

  lemma FenceInTrace(tr: Trace, t: nat, before: nat, f: Option<nat>)
    requires f.Some? && IsLastFence(tr, t, before, f)
    ensures f.value < |tr| && f.value < before
  {
  }

  lemma TraceReadsOk(tr: Trace, rel: Rel)
    requires TraceOk(tr, rel)
    ensures ReadsOk(tr)
  {
  }
}
