/** The search for release heads misses nothing: what synchronizes is reported, or known through what is. */
module ReleaseCompleteness {
  import opened Relations
  import opened GraphTheory
  import opened Coherence
  import opened Scans
  import opened ScanLoops
  import opened ReleaseSequences

  /** The last release of a chain write's thread is never a load. */
  ghost predicate NoLoads(tr: Trace, rf: nat) {
    forall w: nat, c: nat {:trigger IsCandidate(tr, w, c)} ::
      w < |tr| && OnChain(tr, w, rf) && tr[w].kind.Write? && IsCandidate(tr, w, c) ==> !tr[c].kind.Read?
  }

  /** Where no load stands in for a release, every reported head synchronizes in every fitting order. */
  lemma AllHeadsSynchronize(tr: Trace, rel: Rel, mo: Rel, settled: set<nat>, threads: nat, order: seq<nat>, rf: nat,
                            h: nat)
    requires TraceOk(tr, rel) && Axioms(tr, rel, order) && Orients(order, mo) && rf < |tr| && tr[rf].IsWrite()
    requires Head(tr, rel, mo, settled, threads, rf, h) && NoLoads(tr, rf)
    ensures Synchronizes(tr, order, h, rf)
  {
    hide Axioms, Orients, Contiguous, FutureOrdered, Synchronizes;
    HeadSynchronizes(tr, rel, mo, settled, threads, order, rf, h);
    TraceReadsOk(tr, rel);
    var w: nat :| OnChain(tr, w, rf) && w < |tr|
      && (|| (h == w && tr[w].IsRelease()) || IsReleaseFence(tr, w, Some(h))
          || (IsCandidate(tr, w, h) && tr[w].kind.Write?));
    ChainWrites(tr, w, rf);
  }

  // ----- nothing is missed -----

  /** What the search establishes when it is complete. */
  ghost predicate AllFound(tr: Trace, mo: Rel, heads: seq<nat>, rf: nat) {
    forall w: nat {:trigger Walked(tr, w, rf)} ::
      Walked(tr, w, rf) ==> w < |tr| && Found(tr, heads, w) && FoundLast(tr, mo, heads, w)
  }

  /** h is the release write x, or a release fence before it. */
  ghost predicate Releases(tr: Trace, h: nat, x: nat) {
    && h <= x < |tr| && tr[h].IsRelease() && tr[h].tid == tr[x].tid && tr[x].IsWrite()
    && (h == x || (h < x && tr[h].kind.Fence?))
  }

  /** h is a head, happens before one, or synchronizes with one that acquires by a read-modify-write. */
  ghost predicate Known(tr: Trace, rel: Rel, order: seq<nat>, heads: seq<nat>, h: nat) {
    exists g: nat {:trigger g in heads} :: g in heads && g < |tr|
      && (Reach(rel, h, g)
          || (tr[g].kind.Rmw? && tr[g].IsAcquire() && tr[g].rf < g && Synchronizes(tr, order, h, tr[g].rf)))
  }

  lemma KnownBy(tr: Trace, rel: Rel, order: seq<nat>, heads: seq<nat>, h: nat, g: nat)
    requires TraceOk(tr, rel) && h <= g < |tr| && tr[h].tid == tr[g].tid && g in heads
    ensures Known(tr, rel, order, heads, h)
  {
    assert Tids(tr)[h] == Tids(tr)[g];
    ReachRefl(rel, h);
    assert Reach(rel, h, g);
  }

  /** A thread's last release fence before a. */
  lemma {:induction false} SomeFence(tr: Trace, h: nat, a: nat, n: nat) returns (f: nat)
    requires h < n <= a < |tr| && tr[h].kind.Fence? && tr[h].IsRelease() && tr[h].tid == tr[a].tid
    requires forall y :: n <= y < a ==> !(tr[y].kind.Fence? && tr[y].IsRelease() && tr[y].tid == tr[a].tid)
    ensures h <= f && IsReleaseFence(tr, a, Some(f))
    decreases n
  {
    if tr[n - 1].kind.Fence? && tr[n - 1].IsRelease() && tr[n - 1].tid == tr[a].tid {
      f := n - 1;
    } else {
      f := SomeFence(tr, h, a, n - 1);
    }
  }

  /** A thread's last release access to a location, up to a write without release order. */
  lemma {:induction false} SomeCandidate(tr: Trace, h: nat, a: nat, n: nat) returns (c: nat)
    requires h < n <= a < |tr| && tr[h].IsAccess() && tr[h].loc == tr[a].loc && tr[h].tid == tr[a].tid
             && tr[h].IsRelease()
    requires forall y ::
               n <= y <= a && tr[y].IsAccess() && tr[y].loc == tr[a].loc && tr[y].tid == tr[a].tid ==>
                 !tr[y].IsRelease()
    ensures h <= c && IsCandidate(tr, a, c)
    decreases n
  {
    var y := n - 1;
    if tr[y].IsAccess() && tr[y].loc == tr[a].loc && tr[y].tid == tr[a].tid && tr[y].IsRelease() {
      c := y;
    } else {
      c := SomeCandidate(tr, h, a, n - 1);
    }
  }

  /** A fence before a walked write is known by the last one, or by the write. */
  lemma FenceKnown(tr: Trace, rel: Rel, order: seq<nat>, mo: Rel, heads: seq<nat>, rf: nat, h: nat, v: nat)
    requires TraceOk(tr, rel) && AllFound(tr, mo, heads, rf) && Walked(tr, v, rf) && v < |tr|
    requires h < v && tr[h].kind.Fence? && tr[h].IsRelease() && tr[h].tid == tr[v].tid
    ensures Known(tr, rel, order, heads, h)
  {
    hide Known, TraceOk, FoundLast, Walked;
    assert Found(tr, heads, v);
    if tr[v].IsRelease() {
      KnownBy(tr, rel, order, heads, h, v);
    } else {
      var f := SomeFence(tr, h, v, v);
      assert IsReleaseFence(tr, v, Some(f));
      KnownBy(tr, rel, order, heads, h, f);
    }
  }

  /** A write of the chain itself. */
  lemma ChainKnown(tr: Trace, rel: Rel, order: seq<nat>, mo: Rel, heads: seq<nat>, rf: nat, h: nat, v: nat)
    requires TraceOk(tr, rel) && AllFound(tr, mo, heads, rf) && Walked(tr, v, rf) && Releases(tr, h, v)
    ensures Known(tr, rel, order, heads, h)
  {
    hide Known, TraceOk, FoundLast, Walked;
    if h == v {
      assert Found(tr, heads, v);
      KnownBy(tr, rel, order, heads, h, v);
    } else {
      FenceKnown(tr, rel, order, mo, heads, rf, h, v);
    }
  }

  /** Earlier writes of a thread precede its later ones of the location. */
  lemma ThreadPrecedes(tr: Trace, rel: Rel, order: seq<nat>, a: nat, b: nat)
    requires TraceOk(tr, rel) && Axioms(tr, rel, order) && a < b < |tr| && tr[a].tid == tr[b].tid
    requires tr[a].IsWrite() && tr[b].IsWrite() && tr[a].loc == tr[b].loc
    ensures Distinct(order) && Precedes(order, a, b)
  {
    assert Tids(tr)[a] == Tids(tr)[b];
    assert MustWrite(tr, rel, a, b);
  }

  /** At the end of the chain, a sequence that reaches further back is by the same thread, from earlier on. */
  lemma SameThread(tr: Trace, rel: Rel, order: seq<nat>, x: nat, v: nat)
    requires TraceOk(tr, rel) && Axioms(tr, rel, order) && InSequence(tr, order, x, v) && x != v
    requires tr[x].IsWrite() && tr[v].kind.Write?
    ensures x < v && tr[x].tid == tr[v].tid
  {
    assert tr[v].IsWrite() && Precedes(order, x, v);
    if v < x {
      ThreadPrecedes(tr, rel, order, v, x);
      PrecedesIrreflexive(order, v, x);
    }
  }

  /** The graph has edges between writes only. */
  ghost predicate FromWrites(tr: Trace, mo: Rel) {
    forall a, b {:trigger (a, b) in mo} :: (a, b) in mo ==> a < |tr| && tr[a].IsWrite()
  }

  lemma ReachStarts(mo: Rel, a: nat, b: nat)
    requires Reach(mo, a, b) && a != b
    ensures exists c :: (a, c) in mo
  {
    var p :| IsPath(mo, p, a, b);
    assert (p[0], p[1]) in mo;
  }

  /** So nothing follows a load, and nothing splits a sequence that a load would head. */
  lemma LoadSplitsNothing(tr: Trace, mo: Rel, c: nat, v: nat, a: nat)
    requires FromWrites(tr, mo) && c < |tr| && !tr[c].IsWrite() && v < |tr| && Rival(tr, v, a)
    ensures !Splits(tr, mo, c, v, a)
  {
    if Reach(mo, c, a) {
      ReachStarts(mo, c, a);
    }
  }

  /** A sequence from h cannot be split behind a later release of its thread, be it a write or a load. */
  lemma NotSplit(tr: Trace, rel: Rel, mo: Rel, order: seq<nat>, h: nat, c: nat, v: nat, a: nat)
    requires TraceOk(tr, rel) && Axioms(tr, rel, order) && Orients(order, mo) && InSequence(tr, order, h, v)
    requires h <= c < v && tr[h].IsWrite() && tr[c].loc == tr[h].loc && tr[h].tid == tr[c].tid == tr[v].tid
             && FromWrites(tr, mo)
    ensures !Splits(tr, mo, c, v, a)
  {
    if !tr[c].IsWrite() {
      if Rival(tr, v, a) {
        LoadSplitsNothing(tr, mo, c, v, a);
      }
    } else if Splits(tr, mo, c, v, a) {
      OrderFollowsReach(mo, order, c, a);
      OrderFollowsReach(mo, order, a, v);
      if h < c {
        ThreadPrecedes(tr, rel, order, h, c);
        PrecedesTrans(order, h, c, a);
      }
    }
  }

  /** A sequence that began before the end of the chain is known by the last release of the thread. */
  lemma EndKnown(tr: Trace, rel: Rel, order: seq<nat>, mo: Rel, heads: seq<nat>, rf: nat, h: nat, x: nat, v: nat)
    requires TraceOk(tr, rel) && Axioms(tr, rel, order) && Orients(order, mo) && AllFound(tr, mo, heads, rf)
    requires FromWrites(tr, mo) && Walked(tr, v, rf) && v < |tr| && tr[v].kind.Write?
    requires Releases(tr, h, x) && x != v && InSequence(tr, order, x, v)
    ensures Known(tr, rel, order, heads, h)
  {
    hide Known, TraceOk, Walked, Axioms, Orients, IsReleaseFence, FromWrites;
    SameThread(tr, rel, order, x, v);
    assert Found(tr, heads, v) && FoundLast(tr, mo, heads, v);
    if tr[v].IsRelease() {
      KnownBy(tr, rel, order, heads, h, v);
    } else if h < x {
      FenceKnown(tr, rel, order, mo, heads, rf, h, v);
    } else {
      var c := SomeCandidate(tr, h, v, v);
      forall a: nat
        ensures !Splits(tr, mo, c, v, a)
      {
        NotSplit(tr, rel, mo, order, h, c, v, a);
      }
      if c in heads {
        KnownBy(tr, rel, order, heads, h, c);
      } else {
        var f: nat :| IsReleaseFence(tr, v, Some(f)) && c < f;
        LastFenceKnown(tr, rel, order, heads, h, v, f);
      }
    }
  }

  lemma LastFenceKnown(tr: Trace, rel: Rel, order: seq<nat>, heads: seq<nat>, h: nat, v: nat, f: nat)
    requires TraceOk(tr, rel) && v < |tr| && IsReleaseFence(tr, v, Some(f)) && h < f && tr[h].tid == tr[v].tid
             && f in heads
    ensures Known(tr, rel, order, heads, h)
  {
    hide TraceOk, Known;
    KnownBy(tr, rel, order, heads, h, f);
  }

  lemma {:induction false} WalkedOn(tr: Trace, v: nat, rf: nat)
    requires Walked(tr, v, rf) && v < |tr| && tr[v].kind.Rmw? && !(tr[v].IsAcquire() && tr[v].IsRelease())
             && tr[v].rf < v
    ensures Walked(tr, tr[v].rf, rf)
    decreases rf
  {
    if v == rf {
      assert Walked(tr, tr[v].rf, tr[v].rf);
    } else {
      WalkedOn(tr, v, tr[rf].rf);
    }
  }

  /** A sequence that ends in a read-modify-write and began before it goes through what that reads. */
  lemma SequenceBack(tr: Trace, rel: Rel, order: seq<nat>, x: nat, v: nat)
    requires TraceOk(tr, rel) && Axioms(tr, rel, order) && InSequence(tr, order, x, v) && x != v && tr[v].kind.Rmw?
    ensures tr[v].rf < v && tr[tr[v].rf].IsWrite() && InSequence(tr, order, x, tr[v].rf)
  {
    TraceReadsOk(tr, rel);
    var u := tr[v].rf;
    assert tr[v].IsRead() && Adjacent(order, u, v);
    AdjacentBetween(order, u, v, x);
    AdjacentPrecedes(order, u, v);
    forall y: nat | y < |tr| && tr[y].IsWrite() && tr[y].loc == tr[x].loc && Precedes(order, x, y)
      && (y == u || Precedes(order, y, u))
      ensures tr[y].tid == tr[x].tid || tr[y].kind.Rmw?
    {
      if y != u {
        PrecedesTrans(order, y, u, v);
      }
    }
  }

  lemma {:induction false} SequenceKnown(tr: Trace, rel: Rel, order: seq<nat>, mo: Rel, heads: seq<nat>, rf: nat,
                                         h: nat, x: nat, v: nat)
    requires TraceOk(tr, rel) && Axioms(tr, rel, order) && Orients(order, mo) && AllFound(tr, mo, heads, rf)
             && FromWrites(tr, mo)
    requires Walked(tr, v, rf) && v < |tr| && tr[v].IsWrite() && Releases(tr, h, x) && InSequence(tr, order, x, v)
    ensures Known(tr, rel, order, heads, h)
    decreases v
  {
    hide TraceOk, Walked, Axioms, Orients, InSequence, FoundLast;
    if x == v {
      ChainKnown(tr, rel, order, mo, heads, rf, h, v);
    } else if tr[v].kind.Write? {
      EndKnown(tr, rel, order, mo, heads, rf, h, x, v);
    } else {
      SequenceBack(tr, rel, order, x, v);
      var u := tr[v].rf;
      if tr[v].IsAcquire() && tr[v].IsRelease() {
        assert Found(tr, heads, v);
        assert Synchronizes(tr, order, h, u);
      } else {
        WalkedOn(tr, v, rf);
        SequenceKnown(tr, rel, order, mo, heads, rf, h, x, u);
      }
    }
  }

  /**
   * When the search is complete, whatever synchronizes with an acquire that reads from rf, in any fitting order, is
   * a reported head, happens before one, or synchronizes with one that is itself an acquire.
   */
  lemma HeadsComplete(tr: Trace, rel: Rel, order: seq<nat>, mo: Rel, heads: seq<nat>, rf: nat, h: nat)
    requires TraceOk(tr, rel) && Axioms(tr, rel, order) && Orients(order, mo) && AllFound(tr, mo, heads, rf)
             && FromWrites(tr, mo)
    requires rf < |tr| && tr[rf].IsWrite() && Synchronizes(tr, order, h, rf)
    ensures Known(tr, rel, order, heads, h)
  {
    hide TraceOk, Axioms, Orients, InSequence, AllFound, FromWrites, Known;
    assert Walked(tr, rf, rf);
    var x := h;
    if !tr[h].IsWrite() {
      x :| h < x < |tr| && tr[x].tid == tr[h].tid && tr[x].IsWrite() && InSequence(tr, order, x, rf);
    } else if !InSequence(tr, order, h, rf) {
      x :| h < x < |tr| && tr[x].tid == tr[h].tid && tr[x].IsWrite() && InSequence(tr, order, x, rf);
    }
    SequenceKnown(tr, rel, order, mo, heads, rf, h, x, rf);
  }
}
