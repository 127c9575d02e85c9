/**
 * Release sequences: the search for the release operations that an acquire synchronizes with, and
 * why a head it reports is one in every modification order (section 1.10 paragraph 7 and section
 * 29.8 of ISO/IEC 14882:2011).
 */
module ReleaseSequences {
  import opened Relations
  import opened GraphTheory
  import opened Clocks
  import opened HappensBefore
  import opened Coherence
  import opened Scans
  import opened ScanLoops

  // ----- what the standard says -----

  /** w is in the release sequence headed by h: everything after h up to w is by h's thread or a read-modify-write. */
  ghost predicate InSequence(tr: Trace, order: seq<nat>, h: nat, w: nat) {
    && h < |tr| && w < |tr| && tr[h].loc == tr[w].loc && (h == w || Precedes(order, h, w))
    && forall x: nat {:trigger tr[x]} ::
         x < |tr| && tr[x].IsWrite() && tr[x].loc == tr[h].loc && Precedes(order, h, x)
           && (x == w || Precedes(order, x, w)) ==>
           tr[x].tid == tr[h].tid || tr[x].kind.Rmw?
  }

  /** h synchronizes with an acquire that reads from rf: as a release write, or as a fence before a write. */
  ghost predicate Synchronizes(tr: Trace, order: seq<nat>, h: nat, rf: nat) {
    && h < |tr| && tr[h].IsRelease()
    && (|| (tr[h].IsWrite() && InSequence(tr, order, h, rf))
        || (tr[h].kind.Fence?
            && exists w: nat ::
                 h < w < |tr| && tr[w].tid == tr[h].tid && tr[w].IsWrite() && InSequence(tr, order, w, rf)))
  }

  // ----- what the search establishes -----

  /** f is the last release fence of a's thread before a. */
  ghost predicate IsReleaseFence(tr: Trace, a: nat, f: Option<nat>)
    requires a < |tr|
  {
    match f
    case Some(x) =>
      && x < a && tr[x].kind.Fence? && tr[x].IsRelease() && tr[x].tid == tr[a].tid
      && forall y :: x < y < a ==> !(tr[y].kind.Fence? && tr[y].IsRelease() && tr[y].tid == tr[a].tid)
    case None => forall y :: 0 <= y < a ==> !(tr[y].kind.Fence? && tr[y].IsRelease() && tr[y].tid == tr[a].tid)
  }

  /** A write of another thread that could stand between. */
  ghost predicate Rival(tr: Trace, rf: nat, a: nat)
    requires rf < |tr|
  {
    a < |tr| && tr[a].kind.Write? && tr[a].loc == tr[rf].loc && tr[a].tid != tr[rf].tid
  }

  /** a is ordered before the release or after rf. */
  ghost predicate Placed(rel: Rel, mo: Rel, release: nat, rf: nat, a: nat) {
    Reach(rel, a, release) || Reach(mo, a, release) || Reach(rel, rf, a) || Reach(mo, rf, a)
  }

  /** No recorded write can split the sequence from the release to rf. */
  ghost predicate Contiguous(tr: Trace, rel: Rel, mo: Rel, release: nat, rf: nat)
    requires rf < |tr|
  {
    forall a: nat {:trigger Rival(tr, rf, a)} :: Rival(tr, rf, a) ==> Placed(rel, mo, release, rf, a)
  }

  /** Whatever thread t does next comes after rf. */
  ghost predicate FutureOrdered(tr: Trace, rel: Rel, mo: Rel, rf: nat, t: nat)
    requires rf < |tr|
  {
    exists act: nat {:trigger tr[act]} :: act < |tr| && tr[act].tid == t
      && (Reach(rel, rf, act) || (Rival(tr, rf, act) && Reach(mo, rf, act)))
  }

  /** Nothing recorded can split the sequence from the release to rf, and nothing to come will. */
  ghost predicate Secured(tr: Trace, rel: Rel, mo: Rel, settled: set<nat>, threads: nat, release: nat, rf: nat)
    requires rf < |tr|
  {
    && Contiguous(tr, rel, mo, release, rf)
    && forall t: nat {:trigger FutureOrdered(tr, rel, mo, rf, t)} ::
         t < threads && t != tr[rf].tid ==> t in settled || FutureOrdered(tr, rel, mo, rf, t)
  }

  /** The most recent access of rf's thread to its location, from rf on backwards, with release order. */
  ghost predicate IsCandidate(tr: Trace, rf: nat, c: nat)
    requires rf < |tr|
  {
    && c < rf && tr[c].IsAccess() && tr[c].loc == tr[rf].loc && tr[c].tid == tr[rf].tid && tr[c].IsRelease()
    && forall y ::
         c < y <= rf && tr[y].IsAccess() && tr[y].loc == tr[rf].loc && tr[y].tid == tr[rf].tid ==> !tr[y].IsRelease()
  }

  /** How the search justifies a head: on the chain of read-modify-writes, by a fence, or by a contiguous sequence. */
  ghost predicate Head(tr: Trace, rel: Rel, mo: Rel, settled: set<nat>, threads: nat, rf: nat, h: nat) {
    exists w: nat {:trigger OnChain(tr, w, rf)} :: OnChain(tr, w, rf) && w < |tr|
      && (|| (h == w && tr[w].IsRelease())
          || IsReleaseFence(tr, w, Some(h))
          || (IsCandidate(tr, w, h) && tr[w].kind.Write? && Secured(tr, rel, mo, settled, threads, h, w)))
  }

  // ----- heads are heads in every modification order -----

  lemma AdjacentBetween(order: seq<nat>, u: nat, v: nat, x: nat)
    requires Distinct(order) && Adjacent(order, u, v) && Precedes(order, x, v)
    ensures x == u || Precedes(order, x, u)
  {
  }

  lemma AdjacentPrecedes(order: seq<nat>, u: nat, v: nat)
    requires Adjacent(order, u, v)
    ensures Precedes(order, u, v)
  {
  }

  /** Read-modify-writes carry a release sequence on. */
  lemma {:induction false} ChainInSequence(tr: Trace, rel: Rel, order: seq<nat>, h: nat, w: nat, v: nat)
    requires ReadsOk(tr) && Axioms(tr, rel, order) && InSequence(tr, order, h, w) && OnChain(tr, w, v) && v < |tr|
    ensures InSequence(tr, order, h, v)
    decreases v
  {
    if w != v {
      var u := tr[v].rf;
      ChainInSequence(tr, rel, order, h, w, u);
      assert tr[v].kind.Rmw? && Adjacent(order, u, v);
      AdjacentPrecedes(order, u, v);
      if h != u {
        PrecedesTrans(order, h, u, v);
      }
      forall x: nat | x < |tr| && tr[x].IsWrite() && tr[x].loc == tr[h].loc && Precedes(order, h, x)
        && (x == v || Precedes(order, x, v))
        ensures tr[x].tid == tr[h].tid || tr[x].kind.Rmw?
      {
        if x != v {
          AdjacentBetween(order, u, v, x);
        }
      }
    }
  }

  /** Placed rivals stay outside. */
  lemma PlacedOutside(tr: Trace, rel: Rel, mo: Rel, order: seq<nat>, release: nat, rf: nat, a: nat)
    requires Forward(rel, |tr|) && Axioms(tr, rel, order) && Orients(order, mo)
    requires release < |tr| && rf < |tr| && SameVar(tr, release, rf) && tr[release].IsWrite() && tr[rf].IsWrite()
    requires tr[release].tid == tr[rf].tid && Rival(tr, rf, a) && Placed(rel, mo, release, rf, a)
    ensures Precedes(order, a, release) || Precedes(order, rf, a)
  {
    if Reach(rel, a, release) {
      ForwardReach(rel, |tr|, a, release);
      assert MustWrite(tr, rel, a, release);
    } else if Reach(rel, rf, a) {
      ForwardReach(rel, |tr|, rf, a);
      assert MustWrite(tr, rel, rf, a);
    } else if Reach(mo, a, release) {
      OrderFollowsReach(mo, order, a, release);
    } else {
      OrderFollowsReach(mo, order, rf, a);
    }
  }

  lemma ContiguousInSequence(tr: Trace, rel: Rel, mo: Rel, order: seq<nat>, release: nat, rf: nat)
    requires TraceOk(tr, rel) && Axioms(tr, rel, order) && Orients(order, mo) && rf < |tr|
    requires IsCandidate(tr, rf, release) && tr[release].IsWrite() && tr[rf].IsWrite()
             && Contiguous(tr, rel, mo, release, rf)
    ensures InSequence(tr, order, release, rf)
  {
    hide Contiguous, Placed, Reach;
    assert Tids(tr)[release] == Tids(tr)[rf];
    assert MustWrite(tr, rel, release, rf);
    forall x: nat | x < |tr| && tr[x].IsWrite() && tr[x].loc == tr[release].loc && Precedes(order, release, x)
      && (x == rf || Precedes(order, x, rf))
      ensures tr[x].tid == tr[release].tid || tr[x].kind.Rmw?
    {
      if Rival(tr, rf, x) {
        RivalOutside(tr, rel, mo, order, release, rf, x);
      }
    }
  }

  lemma RivalOutside(tr: Trace, rel: Rel, mo: Rel, order: seq<nat>, release: nat, rf: nat, x: nat)
    requires Forward(rel, |tr|) && Axioms(tr, rel, order) && Orients(order, mo)
    requires release < |tr| && rf < |tr| && SameVar(tr, release, rf) && tr[release].IsWrite() && tr[rf].IsWrite()
    requires tr[release].tid == tr[rf].tid && Contiguous(tr, rel, mo, release, rf) && Rival(tr, rf, x)
    ensures !Precedes(order, release, x) || !Precedes(order, x, rf)
  {
    PlacedOutside(tr, rel, mo, order, release, rf, x);
    if Precedes(order, x, release) {
      PrecedesIrreflexive(order, x, release);
    } else {
      PrecedesIrreflexive(order, rf, x);
    }
  }

  /**
   * In every modification order that fits, a reported head synchronizes as the standard says, except
   * that an access with release order may be a seq_cst load, which the standard does not let head a sequence.
   */
  lemma HeadSynchronizes(tr: Trace, rel: Rel, mo: Rel, settled: set<nat>, threads: nat, order: seq<nat>, rf: nat,
                         h: nat)
    requires TraceOk(tr, rel) && Axioms(tr, rel, order) && Orients(order, mo) && rf < |tr| && tr[rf].IsWrite()
    requires Head(tr, rel, mo, settled, threads, rf, h)
    ensures h < |tr| && (Synchronizes(tr, order, h, rf) <==> !tr[h].kind.Read?)
  {
    hide Axioms, Orients, Contiguous, FutureOrdered;
    TraceReadsOk(tr, rel);
    var w: nat :| OnChain(tr, w, rf) && w < |tr|
      && (|| (h == w && tr[w].IsRelease()) || IsReleaseFence(tr, w, Some(h))
          || (IsCandidate(tr, w, h) && tr[w].kind.Write? && Contiguous(tr, rel, mo, h, w)));
    ChainWrites(tr, w, rf);
    if IsCandidate(tr, w, h) && tr[w].kind.Write? && Contiguous(tr, rel, mo, h, w) {
      if !tr[h].kind.Read? {
        ContiguousInSequence(tr, rel, mo, order, h, w);
        ChainInSequence(tr, rel, order, h, w, rf);
      }
    } else {
      AloneInSequence(tr, rel, order, w);
      ChainInSequence(tr, rel, order, w, w, rf);
    }
  }

  /** A thread that stores, loads with seq_cst order and stores again: the load is reported as a head. */
  lemma LoadReported(order: seq<nat>)
    ensures var tr := [Action(Write, Relaxed, 0, 0, 0), Action(Read, SeqCst, 0, 0, 0), Action(Write, Relaxed, 0, 0, 0)];
            Head(tr, {(0, 1), (1, 2)}, {(0, 2)}, {}, 1, 2, 1) && !Synchronizes(tr, order, 1, 2)
  {
    var tr := [Action(Write, Relaxed, 0, 0, 0), Action(Read, SeqCst, 0, 0, 0), Action(Write, Relaxed, 0, 0, 0)];
    assert OnChain(tr, 2, 2);
    assert IsCandidate(tr, 2, 1);
    assert forall a: nat :: !Rival(tr, 2, a);
  }

  /** A head is a write of the chain or happens before one, so synchronizing with it keeps coherence. */
  lemma HeadIsHead(tr: Trace, rel: Rel, mo: Rel, settled: set<nat>, threads: nat, rf: nat, h: nat)
    requires TraceOk(tr, rel) && rf < |tr| && tr[rf].IsWrite() && Head(tr, rel, mo, settled, threads, rf, h)
    ensures h <= rf && IsHead(tr, rel, rf, h)
  {
    hide Contiguous, FutureOrdered;
    TraceReadsOk(tr, rel);
    var w: nat :| OnChain(tr, w, rf) && w < |tr|
      && (|| (h == w && tr[w].IsRelease()) || IsReleaseFence(tr, w, Some(h))
          || (IsCandidate(tr, w, h) && tr[w].kind.Write? && Contiguous(tr, rel, mo, h, w)));
    ChainWrites(tr, w, rf);
    if h == w {
      ReachRefl(rel, w);
    } else {
      assert Tids(tr)[h] == Tids(tr)[w];
    }
    assert Reach(rel, h, w);
  }

  lemma AloneInSequence(tr: Trace, rel: Rel, order: seq<nat>, w: nat)
    requires Axioms(tr, rel, order) && w < |tr|
    ensures InSequence(tr, order, w, w)
  {
    forall x: nat | Precedes(order, w, x)
      ensures x != w && !Precedes(order, x, w)
    {
      PrecedesIrreflexive(order, w, x);
    }
  }

  lemma {:induction false} ChainWrites(tr: Trace, w: nat, v: nat)
    requires ReadsOk(tr) && OnChain(tr, w, v) && v < |tr| && tr[v].IsWrite()
    ensures w <= v && tr[w].IsWrite() && tr[w].loc == tr[v].loc
    decreases v
  {
    if w != v {
      ChainWrites(tr, w, tr[v].rf);
    }
  }

  /** The same for what comes later: a thread whose future is ordered cannot split the sequence. */
  lemma FutureOutside(tr: Trace, rel: Rel, mo: Rel, tr': Trace, rel': Rel, order: seq<nat>, rf: nat, x: nat)
    requires tr <= tr' && rel <= rel' && rf < |tr| <= x < |tr'| && tr[rf].IsWrite()
    requires TraceOk(tr', rel') && Axioms(tr', rel', order) && Orients(order, mo)
    requires tr'[x].IsWrite() && tr'[x].loc == tr[rf].loc && FutureOrdered(tr, rel, mo, rf, tr'[x].tid)
    ensures Precedes(order, rf, x)
  {
    var act: nat :| act < |tr| && tr[act].tid == tr'[x].tid
      && (Reach(rel, rf, act) || (Rival(tr, rf, act) && Reach(mo, rf, act)));
    assert tr'[act] == tr[act] && tr'[rf] == tr[rf];
    assert Tids(tr')[act] == Tids(tr')[x] && Reach(rel', act, x);
    if Reach(rel, rf, act) {
      ReachMono(rel, rel', rf, act);
      ReachTrans(rel', rf, act, x);
      assert MustWrite(tr', rel', rf, x);
    } else {
      OrderFollowsReach(mo, order, rf, act);
      assert MustWrite(tr', rel', act, x);
      PrecedesTrans(order, rf, act, x);
    }
  }

  /** A contiguous sequence stays one in every continuation in which the settled threads write no more. */
  lemma StaysContiguous(tr: Trace, rel: Rel, mo: Rel, settled: set<nat>, threads: nat, release: nat, rf: nat,
                        tr': Trace, rel': Rel, order: seq<nat>)
    requires TraceOk(tr, rel) && rf < |tr| && IsCandidate(tr, rf, release) && tr[release].IsWrite()
             && tr[rf].kind.Write?
    requires Secured(tr, rel, mo, settled, threads, release, rf)
    requires tr <= tr' && rel <= rel' && TraceOk(tr', rel') && Axioms(tr', rel', order) && Orients(order, mo)
    requires forall x {:trigger tr'[x]} :: |tr| <= x < |tr'| && tr'[x].kind.Write? && tr'[x].loc == tr[rf].loc ==>
               tr'[x].tid < threads && tr'[x].tid !in settled
    ensures InSequence(tr', order, release, rf)
  {
    hide FutureOrdered, Placed, Axioms, Orients, IsCandidate;
    CandidateFacts(tr, rf, release);
    assert tr'[release] == tr[release] && tr'[rf] == tr[rf];
    Continued(tr', rel', order, release, rf);
    forall x: nat | x < |tr'| && tr'[x].IsWrite() && tr'[x].loc == tr'[release].loc && Precedes(order, release, x)
      && (x == rf || Precedes(order, x, rf))
      ensures tr'[x].tid == tr'[release].tid || tr'[x].kind.Rmw?
    {
      if x >= |tr| {
        if tr'[x].kind.Write? && tr'[x].tid != tr[rf].tid {
          assert FutureOrdered(tr, rel, mo, rf, tr'[x].tid);
          FutureOutside(tr, rel, mo, tr', rel', order, rf, x);
          DistinctOrder(tr', rel', order);
          PrecedesIrreflexive(order, rf, x);
        }
      } else if Rival(tr, rf, x) {
        assert tr'[x] == tr[x];
        PlacedMono(rel, rel', mo, release, rf, x);
        PlacedOutside(tr', rel', mo, order, release, rf, x);
        DistinctOrder(tr', rel', order);
        if Precedes(order, x, release) {
          PrecedesIrreflexive(order, x, release);
        } else {
          PrecedesIrreflexive(order, rf, x);
        }
      }
    }
  }

  lemma CandidateFacts(tr: Trace, rf: nat, c: nat)
    requires rf < |tr| && IsCandidate(tr, rf, c)
    ensures c < rf && tr[c].loc == tr[rf].loc && tr[c].tid == tr[rf].tid && tr[c].IsAccess()
  {
  }

  lemma DistinctOrder(tr: Trace, rel: Rel, order: seq<nat>)
    requires Axioms(tr, rel, order)
    ensures Distinct(order)
  {
  }

  lemma Continued(tr: Trace, rel: Rel, order: seq<nat>, release: nat, rf: nat)
    requires TraceOk(tr, rel) && Axioms(tr, rel, order) && release < rf < |tr| && tr[release].tid == tr[rf].tid
    requires SameVar(tr, release, rf) && tr[release].IsWrite() && tr[rf].IsWrite()
    ensures Precedes(order, release, rf)
  {
    assert Tids(tr)[release] == Tids(tr)[rf];
    assert MustWrite(tr, rel, release, rf);
  }

  lemma PlacedMono(rel: Rel, rel': Rel, mo: Rel, release: nat, rf: nat, a: nat)
    requires rel <= rel' && Placed(rel, mo, release, rf, a)
    ensures Placed(rel', mo, release, rf, a)
  {
    if Reach(rel, a, release) {
      ReachMono(rel, rel', a, release);
    } else if Reach(rel, rf, a) {
      ReachMono(rel, rel', rf, a);
    }
  }

  /** While a read is being processed, its execution can be searched. */
  lemma ReadingSearchable(tr: Trace, rel: Rel, asked0: seq<Request>, act: Action, rel': Rel, cvs: seq<Clock>,
                          asked: seq<Request>, mo: Rel)
    requires TraceOk(tr, rel) && Ordered(tr, rel, asked0) && asked0 <= asked && act.IsRead() && Into(rel, rel', |tr|)
    requires TraceOk(tr + [act], rel') && ClocksExact(tr + [act], cvs, rel') && |cvs| == |tr| + 1 && Wanted(asked) <= mo
    ensures Searchable(tr + [act], cvs, rel', asked, mo)
  {
    hide ClocksExact, MoLe, FenceWrite, Reach;
    var tr' := tr + [act];
    forall a: nat, b: nat | MustWrite(tr', rel', a, b) && tr'[b].kind.Write?
      ensures MoLe(asked, Wr(tr', a), b)
    {
      OldMust(tr, rel, act, rel', a, b);
      assert tr'[a] == tr[a] && tr'[b] == tr[b];
      MoLeMono(asked0, asked, Wr(tr, a), b);
    }
  }

  lemma {:induction false} OldChain(tr: Trace, act: Action, w: nat, v: nat)
    requires v < |tr| && OnChain(tr + [act], w, v)
    ensures OnChain(tr, w, v)
    decreases v
  {
    assert (tr + [act])[v] == tr[v];
    if w != v {
      OldChain(tr, act, w, tr[v].rf);
    }
  }

  lemma OldHead(tr: Trace, rel: Rel, act: Action, rel': Rel, rf: nat, h: nat)
    requires Forward(rel, |tr|) && Into(rel, rel', |tr|) && ReadsOk(tr + [act]) && rf < |tr| && tr[rf].IsWrite()
             && h <= rf
    requires IsHead(tr + [act], rel', rf, h)
    ensures IsHead(tr, rel, rf, h)
  {
    var tr' := tr + [act];
    var w: nat :| OnChain(tr', w, rf) && w < |tr'| && Reach(rel', h, w);
    assert tr'[rf] == tr[rf];
    ChainWrites(tr', w, rf);
    OldChain(tr, act, w, rf);
    OldReach(rel, rel', |tr|, h, w);
  }

  // ----- the search -----

  method LastReleaseFence(tr: Trace, a: nat) returns (f: Option<nat>)
    requires a < |tr|
    ensures IsReleaseFence(tr, a, f)
  {
    var k := a;
    while k > 0
      invariant 0 <= k <= a
      invariant forall y :: k <= y < a ==> !(tr[y].kind.Fence? && tr[y].IsRelease() && tr[y].tid == tr[a].tid)
    {
      if tr[k - 1].kind.Fence? && tr[k - 1].IsRelease() && tr[k - 1].tid == tr[a].tid {
        return Some(k - 1);
      }
      k := k - 1;
    }
    return None;
  }

  method Position(list: seq<nat>, a: nat) returns (k: nat)
    requires a in list
    ensures k < |list| && list[k] == a
  {
    k := |list| - 1;
    while list[k] != a
      invariant 0 <= k < |list| && a in list[..k + 1]
      decreases k
    {
      assert list[..k + 1] == list[..k] + [list[k]];
      k := k - 1;
    }
  }

  /** The last access of rf's thread with release order, unless a release fence is more recent. */
  method FindRelease(tr: Trace, list: seq<nat>, rf: nat, fence: Option<nat>) returns (c: Option<nat>)
    requires rf < |tr| && tr[rf].IsWrite() && !tr[rf].IsRelease()
    requires IsList(tr, list, tr[rf].loc, tr[rf].tid) && IsReleaseFence(tr, rf, fence)
    ensures c.Some? ==> IsCandidate(tr, rf, c.value) && !Earlier(c.value, fence)
    ensures c.None? ==> forall x: nat :: IsCandidate(tr, rf, x) ==> Earlier(x, fence)
  {
    var at := Position(list, rf);
    var k := at + 1;
    while k > 0
      invariant 0 <= k <= at + 1
      invariant forall j :: k <= j <= at ==> !tr[list[j]].IsRelease() && !Earlier(list[j], fence)
    {
      k := k - 1;
      assert list[k] in list;
      if Earlier(list[k], fence) {
        NoCandidate(tr, list, rf, fence, at, k);
        return None;
      }
      if tr[list[k]].IsRelease() {
        CandidateAt(tr, list, rf, at, k);
        return Some(list[k]);
      }
    }
    forall x: nat
      ensures !IsCandidate(tr, rf, x)
    {
      if IsCandidate(tr, rf, x) {
        InList(tr, list, rf, at, x);
      }
    }
    return None;
  }

  lemma InList(tr: Trace, list: seq<nat>, rf: nat, at: nat, x: nat)
    requires rf < |tr| && IsList(tr, list, tr[rf].loc, tr[rf].tid) && at < |list| && list[at] == rf
    requires x <= rf && tr[x].IsAccess() && tr[x].loc == tr[rf].loc && tr[x].tid == tr[rf].tid
    ensures exists j :: 0 <= j <= at && list[j] == x
  {
    assert x in list;
    var j :| 0 <= j < |list| && list[j] == x;
    assert j <= at;
  }

  lemma CandidateAt(tr: Trace, list: seq<nat>, rf: nat, at: nat, k: nat)
    requires rf < |tr| && IsList(tr, list, tr[rf].loc, tr[rf].tid) && k <= at < |list| && list[at] == rf
    requires list[k] < |tr| && tr[list[k]].IsRelease() && !tr[rf].IsRelease()
    requires forall j :: k < j <= at ==> list[j] < |tr| && !tr[list[j]].IsRelease()
    ensures IsCandidate(tr, rf, list[k])
  {
    assert list[k] in list;
    forall y | list[k] < y <= rf && tr[y].IsAccess() && tr[y].loc == tr[rf].loc && tr[y].tid == tr[rf].tid
      ensures !tr[y].IsRelease()
    {
      InList(tr, list, rf, at, y);
    }
  }

  lemma NoCandidate(tr: Trace, list: seq<nat>, rf: nat, fence: Option<nat>, at: nat, k: nat)
    requires rf < |tr| && IsList(tr, list, tr[rf].loc, tr[rf].tid) && k <= at < |list| && list[at] == rf
    requires Earlier(list[k], fence) && forall j :: k < j <= at ==> list[j] < |tr| && !tr[list[j]].IsRelease()
    ensures forall x: nat :: IsCandidate(tr, rf, x) ==> Earlier(x, fence)
  {
    forall x: nat | IsCandidate(tr, rf, x)
      ensures Earlier(x, fence)
    {
      InList(tr, list, rf, at, x);
      var j :| 0 <= j <= at && list[j] == x;
      assert j <= k;
    }
  }

  /** The writes of one thread that are neither before the release nor after rf. */
  ghost predicate Unplaced(tr: Trace, rel: Rel, mo: Rel, release: nat, rf: nat, a: nat)
    requires rf < |tr|
  {
    Rival(tr, rf, a) && !Placed(rel, mo, release, rf, a)
  }

  /** A write that splits the sequence. */
  ghost predicate Splits(tr: Trace, mo: Rel, release: nat, rf: nat, a: nat)
    requires rf < |tr|
  {
    Rival(tr, rf, a) && Reach(mo, release, a) && Reach(mo, a, rf)
  }

  /** What is looked at in a state: exact clocks, coherent requests, and a graph that holds them. */
  ghost predicate Searchable(tr: Trace, cvs: seq<Clock>, rel: Rel, asked: seq<Request>, mo: Rel) {
    && TraceOk(tr, rel) && ClocksExact(tr, cvs, rel) && |cvs| == |tr| && WritesOrdered(tr, rel, asked)
    && Wanted(asked) <= mo
  }

  /** Whatever must precede a plain write is asked to. */
  ghost predicate WritesOrdered(tr: Trace, rel: Rel, asked: seq<Request>) {
    forall a: nat, b: nat {:trigger MustWrite(tr, rel, a, b)} ::
      MustWrite(tr, rel, a, b) && tr[b].kind.Write? ==> MoLe(asked, Wr(tr, a), b)
  }

  ghost predicate Answers(reaches: (nat, nat) -> bool, mo: Rel) {
    forall a, b :: reaches(a, b) <==> Reach(mo, a, b)
  }

  /** Once a thread's access is before the release, all its earlier ones are. */
  lemma EarlierPlaced(tr: Trace, cvs: seq<Clock>, rel: Rel, asked: seq<Request>, mo: Rel, release: nat, rf: nat,
                      act: nat, a: nat)
    requires Searchable(tr, cvs, rel, asked, mo) && rf < |tr| && Rival(tr, rf, a)
    requires a < act < |tr| && tr[act].IsAccess() && tr[act].loc == tr[rf].loc && tr[act].tid == tr[a].tid
    requires Reach(rel, act, release) || (tr[act].kind.Write? && Reach(mo, act, release))
    ensures Placed(rel, mo, release, rf, a)
  {
    assert Tids(tr)[a] == Tids(tr)[act] && Reach(rel, a, act);
    if Reach(rel, act, release) {
      ReachTrans(rel, a, act, release);
    } else {
      assert MustWrite(tr, rel, a, act);
      ReachMono(Wanted(asked), mo, a, act);
      ReachTrans(mo, a, act, release);
    }
  }

  /** An access of rf's location that comes after rf. */
  ghost predicate Later(tr: Trace, rel: Rel, mo: Rel, rf: nat, act: nat)
    requires rf < |tr|
  {
    && act < |tr| && tr[act].IsAccess() && tr[act].loc == tr[rf].loc
    && (Reach(rel, rf, act) || (Rival(tr, rf, act) && Reach(mo, rf, act)))
  }

  lemma AcyclicBack(rel: Rel, a: nat, b: nat)
    requires Acyclic(rel) && Reach(rel, a, b) && Reach(rel, b, a)
    ensures a == b
  {
    if a != b {
      var c := ReachLast(rel, a, b);
      ReachTrans(rel, b, a, c);
    }
  }

  /** What must precede a plain write does in the graph. */
  lemma MustReach(tr: Trace, cvs: seq<Clock>, rel: Rel, asked: seq<Request>, mo: Rel, a: nat, b: nat)
    requires Searchable(tr, cvs, rel, asked, mo) && a < b < |tr| && Reach(rel, a, b)
    requires tr[a].IsWrite() && tr[b].kind.Write? && tr[a].loc == tr[b].loc
    ensures Reach(mo, a, b)
  {
    assert MustWrite(tr, rel, a, b);
    assert MoLe(asked, Wr(tr, a), b);
    ReachMono(Wanted(asked), mo, a, b);
  }

  /** From an access before the release on backwards, nothing of the thread comes after rf. */
  lemma NoneLater(tr: Trace, cvs: seq<Clock>, rel: Rel, asked: seq<Request>, mo: Rel, release: nat, rf: nat, stop: nat,
                  act: nat)
    requires Searchable(tr, cvs, rel, asked, mo) && Acyclic(mo) && rf < |tr| && IsCandidate(tr, rf, release)
    requires tr[rf].kind.Write? && act <= stop < |tr| && tr[act].tid == tr[stop].tid && tr[act].tid != tr[rf].tid
             && tr[stop].loc == tr[rf].loc
    requires || Reach(rel, stop, release)
             || (tr[stop].kind.Write? && !Reach(rel, rf, stop) && !Reach(mo, rf, stop))
    ensures !Later(tr, rel, mo, rf, act)
  {
    hide Searchable, Reach, IsCandidate, Acyclic;
    CandidateFacts(tr, rf, release);
    SearchableThread(tr, cvs, rel, asked, mo, act, stop);
    SearchableThread(tr, cvs, rel, asked, mo, release, rf);
    if Reach(rel, stop, release) {
      ReachTrans(rel, act, stop, release);
      ReachTrans(rel, act, release, rf);
      ForwardBoth(tr, cvs, rel, asked, mo, rf, act);
      if Rival(tr, rf, act) && Reach(mo, rf, act) {
        MustReach(tr, cvs, rel, asked, mo, act, rf);
        AcyclicBack(mo, rf, act);
      }
    } else {
      if Reach(rel, rf, act) {
        ReachTrans(rel, rf, act, stop);
      }
      if Rival(tr, rf, act) && Reach(mo, rf, act) && act < stop {
        MustReach(tr, cvs, rel, asked, mo, act, stop);
        ReachTrans(mo, rf, act, stop);
      }
    }
  }

  lemma SearchableThread(tr: Trace, cvs: seq<Clock>, rel: Rel, asked: seq<Request>, mo: Rel, a: nat, b: nat)
    requires Searchable(tr, cvs, rel, asked, mo) && a <= b < |tr| && tr[a].tid == tr[b].tid
    ensures Reach(rel, a, b)
  {
    ReachRefl(rel, a);
    assert Tids(tr)[a] == Tids(tr)[b];
  }

  /** Two actions are not each before the other. */
  lemma ForwardBoth(tr: Trace, cvs: seq<Clock>, rel: Rel, asked: seq<Request>, mo: Rel, a: nat, b: nat)
    requires Searchable(tr, cvs, rel, asked, mo) && a != b && Reach(rel, b, a)
    ensures b < a && !Reach(rel, a, b)
  {
    ForwardReach(rel, |tr|, b, a);
    if Reach(rel, a, b) {
      ForwardReach(rel, |tr|, a, b);
    }
  }

  datatype ThreadVerdict = Splitting | Scanned(futureOrdered: bool, writes: seq<nat>)

  /** What the scan of one thread's accesses tells. */
  ghost predicate ThreadChecked(tr: Trace, rel: Rel, mo: Rel, release: nat, rf: nat, t: nat, v: ThreadVerdict)
    requires rf < |tr|
  {
    match v
    case Splitting => exists a: nat :: Unplaced(tr, rel, mo, release, rf, a) && Splits(tr, mo, release, rf, a)
    case Scanned(futureOrdered, writes) =>
      && (forall a: nat {:trigger a in writes} ::
            a in writes <==> Unplaced(tr, rel, mo, release, rf, a) && tr[a].tid == t)
      && (forall a: nat {:trigger a in writes} :: a in writes ==> !Splits(tr, mo, release, rf, a))
      && (futureOrdered <==> exists act: nat :: Later(tr, rel, mo, rf, act) && tr[act].tid == t)
  }

  /** Looks at the accesses of another thread, newest first, for writes that could split the sequence. */
  method CheckThread(tr: Trace, cvs: seq<Clock>, list: seq<nat>, reaches: (nat, nat) -> bool, release: nat, rf: nat,
                     t: nat,
                     ghost rel: Rel, ghost asked: seq<Request>, ghost mo: Rel)
    returns (v: ThreadVerdict)
    requires Searchable(tr, cvs, rel, asked, mo) && Answers(reaches, mo) && Acyclic(mo)
    requires rf < |tr| && tr[rf].kind.Write? && IsCandidate(tr, rf, release)
    requires t != tr[rf].tid && IsList(tr, list, tr[rf].loc, t)
    ensures ThreadChecked(tr, rel, mo, release, rf, t, v)
  {
    hide Searchable, Placed, Later, Reach, Splits, IsCandidate, Acyclic, Unplaced, SoFar, IsList;
    CandidateFacts(tr, rf, release);
    var futureOrdered, writes := false, [];
    var k := |list|;
    SoFarStart(tr, rel, mo, release, rf);
    while k > 0
      invariant 0 <= k <= |list|
      invariant SoFar(tr, rel, mo, release, rf, list[k..], futureOrdered, writes)
    {
      k := k - 1;
      var act := list[k];
      InListed(tr, list, tr[rf].loc, t, k);
      SoFarNext(tr, rel, mo, release, rf, list, k, futureOrdered, writes);
      HbBoth(tr, cvs, rel, asked, mo, release, rf, act);
      if HbTest(tr, cvs, act, release) {
        ScanStops(tr, cvs, rel, asked, mo, list, release, rf, t, k, futureOrdered, writes);
        return Scanned(futureOrdered, writes);
      }
      LaterIf(tr, rel, mo, rf, act);
      UnplacedIf(tr, rel, mo, release, rf, act);
      if HbTest(tr, cvs, rf, act) {
        futureOrdered := true;
        continue;
      }
      if !tr[act].kind.Write? {
        continue;
      }
      if reaches(rf, act) {
        futureOrdered := true;
        continue;
      }
      if reaches(act, release) {
        ScanStops(tr, cvs, rel, asked, mo, list, release, rf, t, k, futureOrdered, writes);
        return Scanned(futureOrdered, writes);
      }
      SplitIf(tr, mo, release, rf, act);
      if reaches(release, act) && reaches(act, rf) {
        return Splitting;
      }
      writes := [act] + writes;
    }
    assert list[0..] == list;
    ScanEnds(tr, rel, mo, list, release, rf, t, futureOrdered, writes);
    return Scanned(futureOrdered, writes);
  }

  lemma InListed(tr: Trace, list: seq<nat>, loc: nat, t: nat, k: nat)
    requires IsList(tr, list, loc, t) && k < |list|
    ensures list[k] < |tr| && tr[list[k]].IsAccess() && tr[list[k]].loc == loc && tr[list[k]].tid == t
  {
    assert list[k] in list;
  }

  /** What the accesses seen so far tell. */
  ghost predicate SoFar(tr: Trace, rel: Rel, mo: Rel, release: nat, rf: nat, seen: seq<nat>, futureOrdered: bool,
                        writes: seq<nat>)
    requires rf < |tr|
  {
    && (forall a: nat {:trigger a in writes} :: a in writes <==> Unplaced(tr, rel, mo, release, rf, a) && a in seen)
    && (forall a: nat {:trigger a in writes} :: a in writes ==> !Splits(tr, mo, release, rf, a))
    && (futureOrdered <==> exists act: nat :: act in seen && Later(tr, rel, mo, rf, act))
  }

  lemma SoFarStart(tr: Trace, rel: Rel, mo: Rel, release: nat, rf: nat)
    requires rf < |tr|
    ensures forall s: seq<nat> :: |s| == 0 ==> SoFar(tr, rel, mo, release, rf, s, false, [])
  {
  }

  lemma SoFarNext(tr: Trace, rel: Rel, mo: Rel, release: nat, rf: nat, list: seq<nat>, k: nat, futureOrdered: bool,
                  writes: seq<nat>)
    requires rf < |tr| && k < |list| && SoFar(tr, rel, mo, release, rf, list[k + 1..], futureOrdered, writes)
    ensures var later, open := Later(tr, rel, mo, rf, list[k]), Unplaced(tr, rel, mo, release, rf, list[k]);
            (open && Splits(tr, mo, release, rf, list[k]))
            || SoFar(tr, rel, mo, release, rf, list[k..], futureOrdered || later, if open then [list[k]] + writes
                     else writes)
  {
    hide Later, Unplaced, Splits;
    assert list[k..] == [list[k]] + list[k + 1..];
  }

  lemma UnplacedIf(tr: Trace, rel: Rel, mo: Rel, release: nat, rf: nat, act: nat)
    requires rf < |tr| && act < |tr| && tr[act].loc == tr[rf].loc && tr[act].tid != tr[rf].tid
    ensures Rival(tr, rf, act) <==> tr[act].kind.Write?
    ensures Unplaced(tr, rel, mo, release, rf, act) <==>
              && tr[act].kind.Write? && !Reach(rel, act, release) && !Reach(mo, act, release)
              && !Reach(rel, rf, act) && !Reach(mo, rf, act)
  {
  }

  /** Where the scan stops, nothing that it did not look at matters. */
  lemma ScanStops(tr: Trace, cvs: seq<Clock>, rel: Rel, asked: seq<Request>, mo: Rel, list: seq<nat>,
                  release: nat, rf: nat, t: nat, k: nat, futureOrdered: bool, writes: seq<nat>)
    requires Searchable(tr, cvs, rel, asked, mo) && Acyclic(mo) && rf < |tr| && IsCandidate(tr, rf, release)
    requires tr[rf].kind.Write? && t != tr[rf].tid && IsList(tr, list, tr[rf].loc, t) && k < |list| && list[k] < |tr|
    requires || Reach(rel, list[k], release)
             || (tr[list[k]].kind.Write? && Reach(mo, list[k], release) && !Reach(rel, rf, list[k])
                 && !Reach(mo, rf, list[k]))
    requires SoFar(tr, rel, mo, release, rf, list[k + 1..], futureOrdered, writes)
    ensures ThreadChecked(tr, rel, mo, release, rf, t, Scanned(futureOrdered, writes))
  {
    hide Searchable, Reach, IsCandidate, Acyclic, Unplaced, Splits, Later, IsList;
    PlacedBelow(tr, cvs, rel, asked, mo, list, release, rf, t, k, writes);
    LaterAbove(tr, cvs, rel, asked, mo, list, release, rf, t, k);
  }

  lemma ScanEnds(tr: Trace, rel: Rel, mo: Rel, list: seq<nat>, release: nat, rf: nat, t: nat, futureOrdered: bool,
                 writes: seq<nat>)
    requires rf < |tr| && t != tr[rf].tid && IsList(tr, list, tr[rf].loc, t)
             && SoFar(tr, rel, mo, release, rf, list, futureOrdered, writes)
    ensures ThreadChecked(tr, rel, mo, release, rf, t, Scanned(futureOrdered, writes))
  {
    hide Reach, Placed, Splits;
    LaterAll(tr, rel, mo, list, rf, t);
    RivalAll(tr, list, rf, t);
  }

  lemma LaterIf(tr: Trace, rel: Rel, mo: Rel, rf: nat, act: nat)
    requires rf < |tr| && act < |tr| && tr[act].IsAccess() && tr[act].loc == tr[rf].loc && tr[act].tid != tr[rf].tid
    ensures Later(tr, rel, mo, rf, act) <==> Reach(rel, rf, act) || (tr[act].kind.Write? && Reach(mo, rf, act))
  {
  }

  lemma SplitIf(tr: Trace, mo: Rel, release: nat, rf: nat, act: nat)
    requires rf < |tr| && Rival(tr, rf, act)
    ensures Splits(tr, mo, release, rf, act) <==> Reach(mo, release, act) && Reach(mo, act, rf)
  {
  }

  /** Where the scan stops, nothing that it did not look at comes after rf. */
  lemma LaterAbove(tr: Trace, cvs: seq<Clock>, rel: Rel, asked: seq<Request>, mo: Rel, list: seq<nat>,
                   release: nat, rf: nat, t: nat, k: nat)
    requires Searchable(tr, cvs, rel, asked, mo) && Acyclic(mo) && rf < |tr| && IsCandidate(tr, rf, release)
    requires tr[rf].kind.Write? && t != tr[rf].tid && IsList(tr, list, tr[rf].loc, t) && k < |list| && list[k] < |tr|
    requires || Reach(rel, list[k], release)
             || (tr[list[k]].kind.Write? && !Reach(rel, rf, list[k]) && !Reach(mo, rf, list[k]))
    ensures (exists act: nat :: act in list[k + 1..] && Later(tr, rel, mo, rf, act)) <==>
            exists act: nat :: Later(tr, rel, mo, rf, act) && tr[act].tid == t
  {
    hide Searchable, Reach, IsCandidate, Acyclic;
    assert list[k] in list;
    forall act: nat | Later(tr, rel, mo, rf, act) && tr[act].tid == t
      ensures act in list[k + 1..]
    {
      assert act in list;
      var j :| 0 <= j < |list| && list[j] == act;
      if j <= k {
        NoneLater(tr, cvs, rel, asked, mo, release, rf, list[k], act);
      }
      assert list[k + 1..][j - k - 1] == act;
    }
    forall act: nat | act in list[k + 1..]
      ensures act in list
    {
    }
  }

  lemma LaterAll(tr: Trace, rel: Rel, mo: Rel, list: seq<nat>, rf: nat, t: nat)
    requires rf < |tr| && IsList(tr, list, tr[rf].loc, t)
    ensures (exists act: nat :: act in list && Later(tr, rel, mo, rf, act)) <==>
            exists act: nat :: Later(tr, rel, mo, rf, act) && tr[act].tid == t
  {
  }

  lemma RivalAll(tr: Trace, list: seq<nat>, rf: nat, t: nat)
    requires rf < |tr| && IsList(tr, list, tr[rf].loc, t)
    ensures forall a: nat {:trigger Rival(tr, rf, a)} :: Rival(tr, rf, a) ==> (a in list <==> tr[a].tid == t)
  {
  }

  lemma HbBoth(tr: Trace, cvs: seq<Clock>, rel: Rel, asked: seq<Request>, mo: Rel, release: nat, rf: nat, act: nat)
    requires Searchable(tr, cvs, rel, asked, mo) && release < |tr| && rf < |tr| && act < |tr|
    ensures |cvs| == |tr|
    ensures HbTest(tr, cvs, act, release) <==> Reach(rel, act, release)
    ensures HbTest(tr, cvs, rf, act) <==> Reach(rel, rf, act)
  {
    HbTestExact(tr, cvs, rel, act, release);
    HbTestExact(tr, cvs, rel, rf, act);
  }

  lemma FutureWitness(tr: Trace, rel: Rel, mo: Rel, rf: nat, t: nat, act: nat)
    requires rf < |tr| && act < |tr| && tr[act].tid == t
    requires Reach(rel, rf, act) || (Rival(tr, rf, act) && Reach(mo, rf, act))
    ensures FutureOrdered(tr, rel, mo, rf, t)
  {
  }

  lemma PlacedHere(rel: Rel, mo: Rel, release: nat, rf: nat, a: nat)
    requires Reach(rel, rf, a) || Reach(mo, rf, a) || Reach(rel, a, release) || Reach(mo, a, release)
    ensures Placed(rel, mo, release, rf, a)
  {
  }

  lemma PlacedBelow(tr: Trace, cvs: seq<Clock>, rel: Rel, asked: seq<Request>, mo: Rel, list: seq<nat>,
                    release: nat, rf: nat, t: nat, k: nat, writes: seq<nat>)
    requires Searchable(tr, cvs, rel, asked, mo) && rf < |tr| && IsList(tr, list, tr[rf].loc, t) && k < |list|
    requires list[k] < |tr| && t != tr[rf].tid
    requires Reach(rel, list[k], release) || (tr[list[k]].kind.Write? && Reach(mo, list[k], release))
    requires forall a: nat {:trigger a in writes} ::
               a in writes <==> Unplaced(tr, rel, mo, release, rf, a) && a in list[k + 1..]
    ensures forall a: nat {:trigger a in writes} ::
              a in writes <==> Unplaced(tr, rel, mo, release, rf, a) && tr[a].tid == t
  {
    hide Searchable, Placed, Reach;
    assert list[k] in list;
    forall j | k < j < |list|
      ensures list[j] in list[k + 1..]
    {
      assert list[k + 1..][j - k - 1] == list[j];
    }
    forall a: nat | Rival(tr, rf, a) && tr[a].tid == t && a !in list[k + 1..]
      ensures Placed(rel, mo, release, rf, a)
    {
      assert a in list;
      var j :| 0 <= j < |list| && list[j] == a;
      if j < k {
        EarlierPlaced(tr, cvs, rel, asked, mo, release, rf, list[k], a);
      } else {
        PlacedHere(rel, mo, release, rf, a);
      }
    }
    forall a: nat | a in list[k + 1..]
      ensures a in list
    {
    }
  }

  /** The verdict on the sequence from a release to rf. */
  datatype Verdict = Certain | Split | Uncertain(writes: seq<nat>)

  /**
   * Certain exactly if no recorded write can stand between and no later one will; split exactly if a write that is not
   * placed otherwise does stand between; and otherwise the writes are exactly those not placed.
   */
  ghost predicate Judged(tr: Trace, rel: Rel, mo: Rel, settled: set<nat>, threads: nat, release: nat, rf: nat,
                         v: Verdict)
    requires rf < |tr|
  {
    && (v.Certain? <==> Secured(tr, rel, mo, settled, threads, release, rf))
    && (v.Split? <==> exists a: nat :: Unplaced(tr, rel, mo, release, rf, a) && Splits(tr, mo, release, rf, a))
    && (v.Uncertain? ==>
          forall a: nat {:trigger a in v.writes} :: a in v.writes <==> Unplaced(tr, rel, mo, release, rf, a))
  }

  ghost predicate ListsAt(tr: Trace, lists: seq<seq<nat>>, loc: nat) {
    forall t {:trigger lists[t]} :: 0 <= t < |lists| ==> IsList(tr, lists[t], loc, t)
  }

  /** The last action of every thread that has one. */
  ghost predicate LastsOk(tr: Trace, last: map<nat, nat>) {
    && (forall t :: t in last ==> last[t] < |tr| && tr[last[t]].tid == t)
    && forall a {:trigger tr[a]} :: 0 <= a < |tr| ==> tr[a].tid in last && a <= last[tr[a].tid]
  }

  /** The future of a thread is ordered exactly if its last action or an access found in its list is after rf. */
  lemma FutureExactly(tr: Trace, cvs: seq<Clock>, rel: Rel, asked: seq<Request>, mo: Rel, last: map<nat, nat>, rf: nat,
                      t: nat)
    requires Searchable(tr, cvs, rel, asked, mo) && LastsOk(tr, last) && rf < |tr| && t != tr[rf].tid
    ensures FutureOrdered(tr, rel, mo, rf, t) <==>
              || (t in last && Reach(rel, rf, last[t]))
              || exists act: nat :: Later(tr, rel, mo, rf, act) && tr[act].tid == t
  {
    hide Searchable, Reach;
    if FutureOrdered(tr, rel, mo, rf, t) {
      var act: nat :| act < |tr| && tr[act].tid == t
        && (Reach(rel, rf, act) || (Rival(tr, rf, act) && Reach(mo, rf, act)));
      if Reach(rel, rf, act) {
        SearchableThread(tr, cvs, rel, asked, mo, act, last[t]);
        ReachTrans(rel, rf, act, last[t]);
      } else {
        assert Later(tr, rel, mo, rf, act);
      }
    }
    if t in last && Reach(rel, rf, last[t]) {
      FutureWitness(tr, rel, mo, rf, t, last[t]);
    }
    if act: nat :| Later(tr, rel, mo, rf, act) && tr[act].tid == t {
      FutureWitness(tr, rel, mo, rf, t, act);
    }
  }

  /** Looks through all other threads for anything that could split the sequence from the release to rf. */
  method Judge(tr: Trace, cvs: seq<Clock>, lists: seq<seq<nat>>, last: map<nat, nat>, settled: set<nat>,
               reaches: (nat, nat) -> bool, release: nat, rf: nat, ghost rel: Rel, ghost asked: seq<Request>,
                 ghost mo: Rel)
    returns (v: Verdict)
    requires Searchable(tr, cvs, rel, asked, mo) && Answers(reaches, mo) && Acyclic(mo)
    requires rf < |tr| && tr[rf].kind.Write? && IsCandidate(tr, rf, release)
    requires ListsAt(tr, lists, tr[rf].loc) && LastsOk(tr, last) && forall a :: 0 <= a < |tr| ==> tr[a].tid < |lists|
    ensures Judged(tr, rel, mo, settled, |lists|, release, rf, v)
  {
    hide Searchable, Placed, FutureOrdered, Reach, IsList, IsCandidate, Acyclic, Splits, Later;
    CandidateFacts(tr, rf, release);
    var open, writes := false, [];
    for t := 0 to |lists|
      invariant forall a: nat {:trigger a in writes} ::
                  a in writes <==> Unplaced(tr, rel, mo, release, rf, a) && tr[a].tid < t
      invariant forall a: nat {:trigger a in writes} :: a in writes ==> !Splits(tr, mo, release, rf, a)
      invariant !open <==> forall u: nat {:trigger FutureOrdered(tr, rel, mo, rf, u)} ::
                  u < t && u != tr[rf].tid ==> u in settled || FutureOrdered(tr, rel, mo, rf, u)
    {
      if t == tr[rf].tid {
        continue;
      }
      var futureOrdered := t in settled;
      if t in last {
        HbBoth(tr, cvs, rel, asked, mo, release, rf, last[t]);
        if HbTest(tr, cvs, rf, last[t]) {
          futureOrdered := true;
        }
      }
      var u := CheckThread(tr, cvs, lists[t], reaches, release, rf, t, rel, asked, mo);
      if u.Splitting? {
        NotSecured(tr, rel, mo, settled, |lists|, release, rf);
        return Split;
      }
      FutureExactly(tr, cvs, rel, asked, mo, last, rf, t);
      writes := writes + u.writes;
      if !futureOrdered && !u.futureOrdered {
        open := true;
      }
    }
    AllPlaced(tr, rel, mo, |lists|, release, rf, writes);
    if writes == [] && !open {
      return Certain;
    }
    return Uncertain(writes);
  }

  lemma NotSecured(tr: Trace, rel: Rel, mo: Rel, settled: set<nat>, threads: nat, release: nat, rf: nat)
    requires rf < |tr| && exists a: nat :: Unplaced(tr, rel, mo, release, rf, a)
    ensures !Secured(tr, rel, mo, settled, threads, release, rf)
  {
  }

  /** The sequence is contiguous exactly if no write has been left unplaced. */
  lemma AllPlaced(tr: Trace, rel: Rel, mo: Rel, threads: nat, release: nat, rf: nat, writes: seq<nat>)
    requires rf < |tr| && forall a :: 0 <= a < |tr| ==> tr[a].tid < threads
    requires forall a: nat {:trigger a in writes} ::
               a in writes <==> Unplaced(tr, rel, mo, release, rf, a) && tr[a].tid < threads
    requires forall a: nat {:trigger a in writes} :: a in writes ==> !Splits(tr, mo, release, rf, a)
    ensures writes == [] <==> Contiguous(tr, rel, mo, release, rf)
    ensures !exists a: nat :: Unplaced(tr, rel, mo, release, rf, a) && Splits(tr, mo, release, rf, a)
    ensures forall a: nat {:trigger a in writes} :: a in writes <==> Unplaced(tr, rel, mo, release, rf, a)
  {
    hide Placed, Splits;
    forall a: nat | Unplaced(tr, rel, mo, release, rf, a)
      ensures a in writes && !Splits(tr, mo, release, rf, a)
    {
    }
    if writes != [] {
      assert writes[0] in writes;
    } else {
      forall a: nat | Rival(tr, rf, a)
        ensures Placed(rel, mo, release, rf, a)
      {
        assert a !in writes;
      }
    }
  }

  /** w is on rf's chain of read-modify-writes, at or above the first one that is both acquire and release. */
  ghost predicate Walked(tr: Trace, w: nat, v: nat)
    decreases v
  {
    w == v || (v < |tr| && tr[v].kind.Rmw? && !(tr[v].IsAcquire() && tr[v].IsRelease()) && tr[v].rf < v
               && Walked(tr, w, tr[v].rf))
  }

  /** The release write or the release fence that w stands for is among the heads. */
  ghost predicate Found(tr: Trace, heads: seq<nat>, w: nat)
    requires w < |tr|
  {
    if tr[w].IsRelease() then w in heads else forall f: nat :: IsReleaseFence(tr, w, Some(f)) ==> f in heads
  }

  /**
   * At the end of the chain, the last release before w is a head, or something splits its sequence, or a fence is
   * later.
   */
  ghost predicate FoundLast(tr: Trace, mo: Rel, heads: seq<nat>, w: nat)
    requires w < |tr|
  {
    tr[w].kind.Write? && !tr[w].IsRelease() ==>
      forall c: nat {:trigger IsCandidate(tr, w, c)} :: IsCandidate(tr, w, c) ==>
        || c in heads
        || (exists a: nat :: Splits(tr, mo, c, w, a))
        || (exists f: nat :: IsReleaseFence(tr, w, Some(f)) && c < f)
  }

  /** A last release whose sequence is certain is among the heads, unless a fence is later. */
  ghost predicate FoundCertain(tr: Trace, rel: Rel, mo: Rel, settled: set<nat>, threads: nat, heads: seq<nat>, w: nat)
    requires w < |tr|
  {
    tr[w].kind.Write? && !tr[w].IsRelease() ==>
      forall c: nat {:trigger IsCandidate(tr, w, c)} ::
        IsCandidate(tr, w, c) && Secured(tr, rel, mo, settled, threads, c, w) ==>
          c in heads || exists f: nat :: IsReleaseFence(tr, w, Some(f)) && c < f
  }

  lemma SearchableReads(tr: Trace, cvs: seq<Clock>, rel: Rel, asked: seq<Request>, mo: Rel)
    requires Searchable(tr, cvs, rel, asked, mo)
    ensures ReadsOk(tr)
  {
  }

  lemma ListAt(tr: Trace, lists: seq<seq<nat>>, loc: nat, t: nat)
    requires ListsAt(tr, lists, loc) && t < |lists|
    ensures IsList(tr, lists[t], loc, t)
  {
  }

  lemma {:induction false} ChainNext(tr: Trace, rf: nat, v: nat)
    requires ReadsOk(tr) && rf < |tr| && tr[rf].kind.Rmw? && OnChain(tr, rf, v) && v < |tr|
    ensures OnChain(tr, tr[rf].rf, v)
    decreases v
  {
    if rf == v {
      assert tr[v].rf < v;
      assert OnChain(tr, tr[v].rf, tr[v].rf);
    } else {
      ChainNext(tr, rf, tr[v].rf);
    }
  }

  lemma {:induction false} WalkedNext(tr: Trace, rf: nat, v: nat)
    requires ReadsOk(tr) && rf < |tr| && tr[rf].kind.Rmw? && !(tr[rf].IsAcquire() && tr[rf].IsRelease())
             && Walked(tr, rf, v) && v < |tr|
    ensures Walked(tr, tr[rf].rf, v)
    decreases v
  {
    assert tr[rf].rf < rf;
    if rf == v {
      assert Walked(tr, tr[v].rf, tr[v].rf);
    } else {
      WalkedNext(tr, rf, tr[v].rf);
    }
  }

  datatype Pending = Pending(release: nat, rf: nat, writes: seq<nat>)

  /** Follows the chain of read-modify-writes from rf0 and collects the release operations on it. */
  method WalkChain(tr: Trace, rf0: nat) returns (heads: seq<nat>, rf: nat)
    requires ReadsOk(tr) && rf0 < |tr| && tr[rf0].IsWrite()
    ensures OnChain(tr, rf, rf0) && Walked(tr, rf, rf0) && rf < |tr| && tr[rf].IsWrite() && tr[rf].loc == tr[rf0].loc
    ensures tr[rf].kind.Write? || (tr[rf].IsAcquire() && tr[rf].IsRelease())
    ensures forall h :: h in heads ==> ChainHead(tr, rf0, h)
    ensures forall w: nat {:trigger Walked(tr, w, rf0)} ::
              Walked(tr, w, rf0) ==> w < |tr| && Found(tr, heads, w) && (w == rf || tr[w].kind.Rmw?)
  {
    heads, rf := [], rf0;
    while true
      invariant rf < |tr| && tr[rf].IsWrite() && OnChain(tr, rf, rf0) && tr[rf].loc == tr[rf0].loc
      invariant Walked(tr, rf, rf0)
      invariant forall h :: h in heads ==> ChainHead(tr, rf0, h)
      invariant forall w: nat {:trigger Walked(tr, w, rf0)} :: Walked(tr, w, rf0) ==>
                  Walked(tr, w, rf) || (w < |tr| && Found(tr, heads, w) && tr[w].kind.Rmw?)
      decreases rf
    {
      ghost var was := heads;
      if tr[rf].IsRelease() {
        heads := heads + [rf];
      } else {
        var f := LastReleaseFence(tr, rf);
        FenceUnique(tr, rf, f);
        if f.Some? {
          heads := heads + [f.value];
        }
      }
      FoundMore(tr, was, heads);
      if !tr[rf].kind.Rmw? || (tr[rf].IsAcquire() && tr[rf].IsRelease()) {
        return;
      }
      ChainNext(tr, rf, rf0);
      WalkedNext(tr, rf, rf0);
      rf := tr[rf].rf;
    }
  }

  lemma FenceUnique(tr: Trace, a: nat, f: Option<nat>)
    requires a < |tr| && IsReleaseFence(tr, a, f)
    ensures forall g: nat :: IsReleaseFence(tr, a, Some(g)) ==> f == Some(g)
  {
  }

  lemma FoundMore(tr: Trace, heads: seq<nat>, heads': seq<nat>)
    requires heads <= heads'
    ensures forall w: nat {:trigger Found(tr, heads', w)} :: w < |tr| && Found(tr, heads, w) ==> Found(tr, heads', w)
  {
  }

  /** What the search must report for each write it walks past: complete tells that nothing more can be found. */
  ghost predicate Reported(tr: Trace, rel: Rel, mo: Rel, settled: set<nat>, threads: nat, rf: nat, heads: seq<nat>,
                           complete: bool) {
    forall w: nat {:trigger Walked(tr, w, rf)} :: Walked(tr, w, rf) ==>
      && w < |tr| && Found(tr, heads, w) && (complete ==> FoundLast(tr, mo, heads, w))
      && FoundCertain(tr, rel, mo, settled, threads, heads, w)
  }

  /** The outcome of a search: all that is reported is a head, all that is certain is reported, and what is open. */
  ghost predicate Searched(tr: Trace, rel: Rel, mo: Rel, settled: set<nat>, threads: nat, rf: nat, cyclic: bool,
                           heads: seq<nat>, complete: bool, pending: Option<Pending>) {
    && (forall h :: h in heads ==> Head(tr, rel, mo, settled, threads, rf, h))
    && (pending.Some? <==> !complete && !cyclic)
    && (cyclic ==> heads == [] && !complete)
    && (pending.Some? ==>
          var p := pending.value;
          && Walked(tr, p.rf, rf) && p.rf < |tr| && IsCandidate(tr, p.rf, p.release)
          && Judged(tr, rel, mo, settled, threads, p.release, p.rf, Uncertain(p.writes)))
    && (!cyclic ==> Reported(tr, rel, mo, settled, threads, rf, heads, complete))
  }

  /** A release write of the chain, or the release fence before one of its writes. */
  ghost predicate ChainHead(tr: Trace, rf: nat, h: nat) {
    exists w: nat {:trigger OnChain(tr, w, rf)} :: OnChain(tr, w, rf) && w < |tr|
      && ((h == w && tr[w].IsRelease()) || IsReleaseFence(tr, w, Some(h)))
  }

  lemma ChainHeadIsHead(tr: Trace, rel: Rel, mo: Rel, settled: set<nat>, threads: nat, rf: nat, h: nat)
    requires ChainHead(tr, rf, h)
    ensures Head(tr, rel, mo, settled, threads, rf, h)
  {
  }

  /**
   * The heads of the release sequences that rf0 is in, as far as they are certain; complete tells
   * that no more can be found later, and otherwise pending says what is open.
   */
  method ReleaseSeqHeads(tr: Trace, cvs: seq<Clock>, lists: seq<seq<nat>>, last: map<nat, nat>, settled: set<nat>,
                         cyclic: bool, reaches: (nat, nat) -> bool, rf0: nat,
                         ghost rel: Rel, ghost asked: seq<Request>, ghost mo: Rel)
    returns (heads: seq<nat>, complete: bool, pending: Option<Pending>)
    requires Searchable(tr, cvs, rel, asked, mo) && Answers(reaches, mo) && (!cyclic ==> Acyclic(mo))
    requires rf0 < |tr| && tr[rf0].IsWrite() && ListsAt(tr, lists, tr[rf0].loc) && LastsOk(tr, last)
    requires forall a :: 0 <= a < |tr| ==> tr[a].tid < |lists|
    ensures Searched(tr, rel, mo, settled, |lists|, rf0, cyclic, heads, complete, pending)
  {
    hide Searchable, Judged, Head, Found, Walked, FoundLast, OnChain, ListsAt;
    if cyclic {
      return [], false, None;
    }
    SearchableReads(tr, cvs, rel, asked, mo);
    var rf;
    heads, rf := WalkChain(tr, rf0);
    forall h | h in heads
      ensures Head(tr, rel, mo, settled, |lists|, rf0, h)
    {
      ChainHeadIsHead(tr, rel, mo, settled, |lists|, rf0, h);
    }
    complete, pending := true, None;
    ghost var was := heads;
    if !tr[rf].IsRelease() {
      heads, complete, pending := LastRelease(tr, cvs, lists, last, settled, reaches, rf0, rf, heads, rel, asked, mo);
    }
    FoundMore(tr, was, heads);
    LastFound(tr, rel, mo, settled, |lists|, heads, rf, complete);
  }

  lemma LastFound(tr: Trace, rel: Rel, mo: Rel, settled: set<nat>, threads: nat, heads: seq<nat>, rf: nat,
                  complete: bool)
    requires rf < |tr| && (tr[rf].IsRelease() || (complete ==> FoundLast(tr, mo, heads, rf)))
             && (tr[rf].IsRelease() || FoundCertain(tr, rel, mo, settled, threads, heads, rf))
    ensures forall w: nat {:trigger tr[w]} ::
              w < |tr| && (w == rf || tr[w].kind.Rmw?) ==>
                (complete ==> FoundLast(tr, mo, heads, w)) && FoundCertain(tr, rel, mo, settled, threads, heads, w)
  {
  }

  /** The end of the chain is a write without release order: its thread's last release counts if nothing splits. */
  method LastRelease(tr: Trace, cvs: seq<Clock>, lists: seq<seq<nat>>, last: map<nat, nat>, settled: set<nat>,
                     reaches: (nat, nat) -> bool, rf0: nat, rf: nat, heads0: seq<nat>,
                     ghost rel: Rel, ghost asked: seq<Request>, ghost mo: Rel)
    returns (heads: seq<nat>, complete: bool, pending: Option<Pending>)
    requires Searchable(tr, cvs, rel, asked, mo) && Answers(reaches, mo) && Acyclic(mo)
    requires rf < |tr| && tr[rf].kind.Write? && !tr[rf].IsRelease() && OnChain(tr, rf, rf0)
    requires ListsAt(tr, lists, tr[rf].loc) && LastsOk(tr, last)
    requires forall a :: 0 <= a < |tr| ==> tr[a].tid < |lists|
    requires forall h :: h in heads0 ==> Head(tr, rel, mo, settled, |lists|, rf0, h)
    ensures heads0 <= heads && forall h :: h in heads ==> Head(tr, rel, mo, settled, |lists|, rf0, h)
    ensures pending.Some? <==> !complete
    ensures pending.Some? ==>
              && pending.value.rf == rf && IsCandidate(tr, rf, pending.value.release)
              && Judged(tr, rel, mo, settled, |lists|, pending.value.release, rf, Uncertain(pending.value.writes))
    ensures (complete ==> FoundLast(tr, mo, heads, rf)) && FoundCertain(tr, rel, mo, settled, |lists|, heads, rf)
    ensures Found(tr, heads, rf)
  {
    hide Searchable, FutureOrdered, Contiguous, Reach, OnChain, IsCandidate;
    heads := heads0;
    var fence := LastReleaseFence(tr, rf);
    FenceUnique(tr, rf, fence);
    if fence.Some? {
      heads := heads + [fence.value];
      assert ChainHead(tr, rf0, fence.value);
      ChainHeadIsHead(tr, rel, mo, settled, |lists|, rf0, fence.value);
    }
    ListAt(tr, lists, tr[rf].loc, tr[rf].tid);
    var c := FindRelease(tr, lists[tr[rf].tid], rf, fence);
    if c.None? {
      return heads, true, None;
    }
    CandidateUnique(tr, rf, c.value);
    var v := Judge(tr, cvs, lists, last, settled, reaches, c.value, rf, rel, asked, mo);
    match v
    case Certain =>
      return heads + [c.value], true, None;
    case Split =>
      return heads, true, None;
    case Uncertain(writes) =>
      return heads, false, Some(Pending(c.value, rf, writes));
  }

  lemma CandidateUnique(tr: Trace, rf: nat, c: nat)
    requires rf < |tr| && IsCandidate(tr, rf, c)
    ensures c < |tr| && forall d: nat :: IsCandidate(tr, rf, d) ==> d == c
  {
  }
}
