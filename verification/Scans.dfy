/** Looking at one action per thread is enough: what the backward scans find, and what follows from it. */
module Scans {
  import opened Relations
  import opened GraphTheory
  import opened HappensBefore
  import opened Coherence

  /** The scan of thread t for the read n stops here: an action that must precede, or rf itself once seen. */
  ghost predicate ReadHit(tr: Trace, rel: Rel, n: nat, t: nat, a: nat)
    requires n < |tr|
  {
    && a < n && SameVar(tr, a, n) && tr[a].tid == t
    && if a == tr[n].rf then Reach(rel, a, n) else MustRead(tr, rel, a, n)
  }

  ghost predicate WriteHit(tr: Trace, rel: Rel, n: nat, t: nat, a: nat)
    requires n < |tr|
  {
    && a < n && SameVar(tr, a, n) && tr[a].tid == t
    && (Reach(rel, a, n) || (tr[a].IsWrite() && Rule67(tr, a, n)))
  }

  /** stop is the most recent hit, if there is one. */
  ghost predicate IsReadStop(tr: Trace, rel: Rel, n: nat, t: nat, stop: Option<nat>)
    requires n < |tr|
  {
    match stop
    case Some(s) => ReadHit(tr, rel, n, t, s) && forall a: nat :: s < a < n ==> !ReadHit(tr, rel, n, t, a)
    case None => forall a: nat :: a < n ==> !ReadHit(tr, rel, n, t, a)
  }

  ghost predicate IsWriteStop(tr: Trace, rel: Rel, n: nat, t: nat, stop: Option<nat>)
    requires n < |tr|
  {
    match stop
    case Some(s) => WriteHit(tr, rel, n, t, s) && forall a: nat :: s < a < n ==> !WriteHit(tr, rel, n, t, a)
    case None => forall a: nat :: a < n ==> !WriteHit(tr, rel, n, t, a)
  }

  /** The request a stop leads to: the write it made or observed goes before the target. */
  function StopRequest(tr: Trace, stop: Option<nat>, target: nat): seq<Request>
    requires stop.Some? ==> stop.value < |tr|
  {
    if stop.Some? && Wr(tr, stop.value) != target then [Before(Wr(tr, stop.value), target)] else []
  }

  /** An older access of the same thread and location is already ordered before what a later one made or observed. */
  lemma SameThreadOrdered(tr: Trace, rel: Rel, asked: seq<Request>, a: nat, s: nat)
    requires TraceOk(tr, rel) && Ordered(tr, rel, asked)
    requires a < s < |tr| && SameVar(tr, a, s) && tr[a].tid == tr[s].tid
    ensures MoLe(asked, Wr(tr, a), Wr(tr, s))
  {
    assert Tids(tr)[a] == Tids(tr)[s] && Reach(rel, a, s);
    if tr[s].IsWrite() {
      assert MustWrite(tr, rel, a, s);
    } else {
      assert MustRead(tr, rel, a, s);
    }
  }

  /** With the one request of its stop, everything of a thread that must precede a read does. */
  lemma ReadStopOrders(tr: Trace, rel: Rel, asked0: seq<Request>, act: Action, rel': Rel,
                       t: nat, stop: Option<nat>, asked: seq<Request>, a: nat)
    requires TraceOk(tr, rel) && Ordered(tr, rel, asked0) && asked0 <= asked && act.IsRead() && ReadsOk(tr + [act])
    requires IsReadStop(tr + [act], rel', |tr|, t, stop)
    requires forall q :: q in StopRequest(tr + [act], stop, act.rf) ==> q in asked
    requires MustRead(tr + [act], rel', a, |tr|) && tr[a].tid == t
    ensures MoLe(asked, Wr(tr, a), act.rf)
  {
    var tr', n := tr + [act], |tr|;
    assert tr'[a] == tr[a] && tr'[n] == act;
    if a == act.rf {
      assert tr'[n].rf < n && tr'[a].IsWrite();
      ReachRefl(Wanted(asked), a);
    } else {
      assert ReadHit(tr', rel', n, t, a);
      assert tr'[stop.value] == tr[stop.value];
      StopOrders(tr, rel, asked0, act, stop, act.rf, asked, a);
    }
  }

  /** From the stop on, everything older in the thread is carried to the target by one request. */
  lemma StopOrders(tr: Trace, rel: Rel, asked0: seq<Request>, act: Action, stop: Option<nat>, target: nat,
                   asked: seq<Request>, a: nat)
    requires TraceOk(tr, rel) && Ordered(tr, rel, asked0) && asked0 <= asked
    requires stop.Some? && a <= stop.value < |tr| && SameVar(tr, a, stop.value) && tr[a].tid == tr[stop.value].tid
    requires forall q :: q in StopRequest(tr + [act], stop, target) ==> q in asked
    ensures MoLe(asked, Wr(tr, a), target)
  {
    var s := stop.value;
    assert (tr + [act])[s] == tr[s] && Wr(tr + [act], s) == Wr(tr, s);
    if a < s {
      SameThreadOrdered(tr, rel, asked0, a, s);
      MoLeMono(asked0, asked, Wr(tr, a), Wr(tr, s));
    } else {
      ReachRefl(Wanted(asked), Wr(tr, a));
    }
    if Wr(tr, s) != target {
      assert Before(Wr(tr, s), target) in StopRequest(tr + [act], stop, target);
      MoLeAsked(asked, Before(Wr(tr, s), target));
      MoLeTrans(asked, Wr(tr, a), Wr(tr, s), target);
    }
  }

  lemma WriteStopOrders(tr: Trace, rel: Rel, asked0: seq<Request>, act: Action, rel': Rel,
                        t: nat, stop: Option<nat>, asked: seq<Request>, a: nat)
    requires TraceOk(tr, rel) && Ordered(tr, rel, asked0) && asked0 <= asked && act.IsWrite()
    requires IsWriteStop(tr + [act], rel', |tr|, t, stop)
    requires forall q :: q in StopRequest(tr + [act], stop, |tr|) ==> q in asked
    requires WriteHit(tr + [act], rel', |tr|, t, a)
    ensures MoLe(asked, Wr(tr, a), |tr|)
  {
    var tr', n := tr + [act], |tr|;
    assert tr'[a] == tr[a] && tr'[n] == act;
    assert tr'[stop.value] == tr[stop.value];
    StopOrders(tr, rel, asked0, act, stop, n, asked, a);
  }

  // ----- why each request is demanded -----

  ghost predicate ReadReason(tr: Trace, rel: Rel, n: nat, q: Request)
    requires n < |tr|
  {
    q.Before? && q.b == tr[n].rf && q.a != q.b && exists s: nat :: MustRead(tr, rel, s, n) && q.a == Wr(tr, s)
  }

  ghost predicate WriteReason(tr: Trace, rel: Rel, n: nat, q: Request)
    requires n < |tr|
  {
    q.Before? && q.b == n && exists s: nat :: MustWrite(tr, rel, s, n) && q.a == Wr(tr, s)
  }

  ghost predicate Reason(tr: Trace, rel: Rel, n: nat, q: Request)
    requires n < |tr|
  {
    || (tr[n].IsRead() && ReadReason(tr, rel, n, q))
    || (tr[n].IsWrite() && WriteReason(tr, rel, n, q))
    || (tr[n].kind.Rmw? && q == ReadByRmw(tr[n].rf, n))
  }

  /** The relation may still grow after the scan; the reasons stand. */
  lemma ReasonHolds(tr: Trace, rel: Rel, rel': Rel, n: nat, q: Request, order: seq<nat>)
    requires n < |tr| && rel <= rel' && Reason(tr, rel, n, q) && Axioms(tr, rel', order)
    ensures Meets(order, q)
  {
    if tr[n].IsRead() && ReadReason(tr, rel, n, q) {
      var s: nat :| MustRead(tr, rel, s, n) && q.a == Wr(tr, s);
      if Reach(rel, s, n) {
        ReachMono(rel, rel', s, n);
      }
      assert MustRead(tr, rel', s, n);
    } else if tr[n].IsWrite() && WriteReason(tr, rel, n, q) {
      var s: nat :| MustWrite(tr, rel, s, n) && q.a == Wr(tr, s);
      if Reach(rel, s, n) {
        ReachMono(rel, rel', s, n);
      }
      assert MustWrite(tr, rel', s, n);
    }
  }

  ghost predicate ReasonsFrom(tr: Trace, rel: Rel, n: nat, asked: seq<Request>, k: nat)
    requires n < |tr|
  {
    forall i {:trigger asked[i]} :: k <= i < |asked| ==> Reason(tr, rel, n, asked[i])
  }

  lemma ReasonsJustify(tr: Trace, rel: Rel, rel': Rel, n: nat, asked: seq<Request>, k: nat)
    requires n < |tr| && rel <= rel' && ReasonsFrom(tr, rel, n, asked, k)
    ensures JustifiedFrom(tr, rel', asked, k)
  {
    forall i, order | k <= i < |asked| && Axioms(tr, rel', order)
      ensures Meets(order, asked[i])
    {
      ReasonHolds(tr, rel, rel', n, asked[i], order);
    }
  }

  /** A stop's request has a reason. */
  lemma ReadStopReason(tr: Trace, rel: Rel, n: nat, t: nat, stop: Option<nat>, q: Request)
    requires n < |tr| && tr[n].IsRead() && IsReadStop(tr, rel, n, t, stop) && ReadsOk(tr)
    requires q in StopRequest(tr, stop, tr[n].rf)
    ensures Reason(tr, rel, n, q) && q.a < n
  {
    var s := stop.value;
    assert s != tr[n].rf;
    assert MustRead(tr, rel, s, n);
  }

  lemma WriteStopReason(tr: Trace, rel: Rel, n: nat, t: nat, stop: Option<nat>, q: Request)
    requires n < |tr| && tr[n].IsWrite() && IsWriteStop(tr, rel, n, t, stop) && ReadsOk(tr)
    requires q in StopRequest(tr, stop, n)
    ensures Reason(tr, rel, n, q) && q.a < n
  {
    var s := stop.value;
    assert MustWrite(tr, rel, s, n);
  }

  // ----- synchronization gained by the read itself -----

  /** w is v, or v is a read-modify-write that reads from a write w leads to. */
  ghost predicate OnChain(tr: Trace, w: nat, v: nat)
    decreases v
  {
    w == v || (v < |tr| && tr[v].kind.Rmw? && tr[v].rf < v && OnChain(tr, w, tr[v].rf))
  }

  /** A release head for reading rf: a write of rf's chain of read-modify-writes, or something before one. */
  ghost predicate IsHead(tr: Trace, rel: Rel, rf: nat, h: nat) {
    exists w: nat :: OnChain(tr, w, rf) && w < |tr| && Reach(rel, h, w)
  }

  lemma {:induction false} ChainOrdered(tr: Trace, rel: Rel, asked: seq<Request>, w: nat, v: nat)
    requires ReadsOk(tr) && Ordered(tr, rel, asked) && OnChain(tr, w, v) && v < |tr| && tr[v].IsWrite()
    ensures MoLe(asked, w, v) && w < |tr| && tr[w].IsWrite() && tr[w].loc == tr[v].loc
    decreases v
  {
    if w == v {
      ReachRefl(Wanted(asked), w);
    } else {
      var u := tr[v].rf;
      ChainOrdered(tr, rel, asked, w, u);
      assert tr[v].kind.Rmw?;
      MoLeAsked(asked, ReadByRmw(u, v));
      MoLeTrans(asked, w, u, v);
    }
  }

  /** What happens before a release head is ordered before the write that is read. */
  lemma HeadOrdered(tr: Trace, rel: Rel, asked: seq<Request>, rf: nat, h: nat, a: nat)
    requires TraceOk(tr, rel) && Ordered(tr, rel, asked) && IsHead(tr, rel, rf, h)
    requires rf < |tr| && tr[rf].IsWrite() && a < |tr| && tr[a].IsAccess() && tr[a].loc == tr[rf].loc
             && Reach(rel, a, h)
    ensures MoLe(asked, Wr(tr, a), rf)
  {
    var w: nat :| OnChain(tr, w, rf) && w < |tr| && Reach(rel, h, w);
    ChainOrdered(tr, rel, asked, w, rf);
    ReachTrans(rel, a, h, w);
    if a != w {
      ForwardReach(rel, |tr|, a, w);
      assert MustWrite(tr, rel, a, w);
      MoLeTrans(asked, Wr(tr, a), w, rf);
    }
  }

  ghost function HeadEdges(heads: set<nat>, n: nat): Rel {
    set h | h in heads :: (h, n)
  }

  /** Whatever newly happens before n does so through a head or did so already. */
  lemma ThroughHeads(rel: Rel, rel0: Rel, heads: set<nat>, n: nat, a: nat)
    requires Forward(rel, n) && Into(rel, rel0, n) && a < n && Reach(rel0 + HeadEdges(heads, n), a, n)
    requires forall h :: h in heads ==> h < n
    ensures Reach(rel0, a, n) || exists h :: h in heads && Reach(rel, a, h)
  {
    var rel' := rel0 + HeadEdges(heads, n);
    var c := ReachLast(rel', a, n);
    OldReach(rel, rel', n, a, c);
    if (c, n) in rel0 {
      OldReach(rel, rel0, n, a, c);
      ReachPair(rel0, c, n);
      ReachTrans(rel0, a, c, n);
    }
  }

  /** The scan is made before the read synchronizes; it still covers what the synchronization adds. */
  lemma HeadsCovered(tr: Trace, rel: Rel, asked0: seq<Request>, act: Action, rel0: Rel, heads: set<nat>,
                     asked: seq<Request>, a: nat)
    requires TraceOk(tr, rel) && Ordered(tr, rel, asked0) && asked0 <= asked && act.IsRead() && ReadsOk(tr + [act])
    requires Into(rel, rel0, |tr|) && forall h :: h in heads ==> h < |tr| && IsHead(tr, rel, act.rf, h)
    requires forall x: nat :: MustRead(tr + [act], rel0, x, |tr|) ==> MoLe(asked, Wr(tr + [act], x), act.rf)
    requires a < |tr| && SameVar(tr + [act], a, |tr|) && Reach(rel0 + HeadEdges(heads, |tr|), a, |tr|)
    ensures MoLe(asked, Wr(tr + [act], a), act.rf)
  {
    var tr', n := tr + [act], |tr|;
    assert tr'[a] == tr[a] && tr'[n] == act;
    ThroughHeads(rel, rel0, heads, n, a);
    if Reach(rel0, a, n) {
      assert MustRead(tr', rel0, a, n);
    } else {
      var h :| h in heads && Reach(rel, a, h);
      assert tr'[n].rf < n && tr'[act.rf] == tr[act.rf];
      HeadOrdered(tr, rel, asked0, act.rf, h, a);
      MoLeMono(asked0, asked, Wr(tr, a), act.rf);
    }
  }
}
