/** Traces on which the passes do find everything: conditions on the trace alone. */
module ScTraces {
  import opened GraphTheory
  import opened Clocks
  import opened ScTheory
  import opened ScPasses
  import opened ScGeneration
  import opened ScFixpoint
  import opened ScSolutions
  import opened ScSettled
  import opened ScLate

  // ----- early and late third writes -----

  /** A write whose clock may still grow when a later read is visited. */
  ghost predicate EarlyTarget(tr: ScTrace, x: nat) {
    || (exists r: nat :: Third(tr, r, x) && x < r)
    || (exists r: nat, w2: nat :: Third(tr, r, w2) && tr[r].rf == x)
  }

  /** With only late third writes, no write's clock grows that way. */
  ghost predicate Hit(tr: ScTrace, mode: Mode, x: nat) {
    mode.Any? && EarlyTarget(tr, x)
  }

  /** Such a write is before y by a path of one step or more. */
  ghost predicate Reached(tr: ScTrace, mode: Mode, y: nat) {
    exists p: seq<nat> :: Path(tr, p) && |p| > 1 && Hit(tr, mode, p[0]) && p[|p| - 1] == y
  }

  /** No late third write is reached from a write whose clock may still grow. */
  ghost predicate Apart(tr: ScTrace) {
    forall r: nat, w2: nat {:trigger Third(tr, r, w2)} :: Third(tr, r, w2) && r < w2 ==> !Reached(tr, Any, w2)
  }

  lemma ReachedNext(tr: ScTrace, mode: Mode, b: nat, a: nat)
    requires Direct(tr, b, a) && (Hit(tr, mode, b) || Reached(tr, mode, b))
    ensures Reached(tr, mode, a)
  {
    hide Direct;
    DirectIn(tr, b, a);
    var p := [b];
    if Reached(tr, mode, b) {
      p :| Path(tr, p) && |p| > 1 && Hit(tr, mode, p[0]) && p[|p| - 1] == b;
    }
    var q := p + [a];
    forall i: nat | i < |q| - 1
      ensures Link(tr, q, i)
    {
      if i < |p| - 1 {
        assert Link(tr, p, i);
      }
    }
    assert Path(tr, q) && q[0] == p[0];
  }

  lemma DirectIn(tr: ScTrace, b: nat, a: nat)
    requires Direct(tr, b, a)
    ensures b < a < |tr|
  {
  }

  // ----- which clocks a visit may change -----

  /** Up to r only clocks that may be hit have changed. */
  ghost predicate Kept(tr: ScTrace, mode: Mode, s: Vectors, s': Vectors, r: nat) {
    |s'.cvs| == |s.cvs|
      && forall x {:trigger s'.cvs[x]} ::
           0 <= x < r && x < |s.cvs| && !Hit(tr, mode, x) ==> SameClock(s.cvs[x], s'.cvs[x])
  }

  lemma KeptTrans(tr: ScTrace, mode: Mode, s: Vectors, s': Vectors, s'': Vectors, r: nat)
    requires Kept(tr, mode, s, s', r) && Kept(tr, mode, s', s'', r)
    ensures Kept(tr, mode, s, s'', r)
  {
    hide Hit, Even;
    forall x | 0 <= x < r && x < |s.cvs| && !Hit(tr, mode, x)
      ensures SameClock(s.cvs[x], s''.cvs[x])
    {
      assert SameClock(s.cvs[x], s'.cvs[x]) && SameClock(s'.cvs[x], s''.cvs[x]);
      if s.cvs[x] != s'.cvs[x] && s'.cvs[x] != s''.cvs[x] {
        EvenTrans(s.cvs[x].value, s'.cvs[x].value, s''.cvs[x].value);
      }
    }
  }

  /** The read stays as it is, and what it names stays in the write that it reads. */
  lemma ScanGoesOn(tr: ScTrace, mode: Mode, s: Vectors, s': Vectors, r: nat)
    requires ScanOk(tr, mode, s, r) && Grew(s, s') && r < |s.cvs| && s'.cvs[r] == s.cvs[r]
    ensures ScanOk(tr, mode, s', r)
  {
    hide Leq;
    if mode.Late? {
      forall w2: nat | Third(tr, r, w2) && Named(s', r, tr[w2].tid, w2)
        ensures InWrite(mode.was, s', w2, tr[r].rf)
      {
        assert Named(s, r, tr[w2].tid, w2) && InWrite(mode.was, s, w2, tr[r].rf);
        var w := tr[r].rf;
        LeqTrans(mode.was.cvs[w2].value, s.cvs[w].value, s'.cvs[w].value);
      }
    }
  }

  lemma {:induction false} ReadBackKept(tr: ScTrace, s: Vectors, changed: bool, r: nat, l: seq<nat>, k: nat, mode: Mode)
    requires |s.cvs| == |tr| && r < |tr| && s.cvs[r].Some? && tr[r].read && tr[r].rf < r && k <= |l| && Listed(tr, l)
    requires OfOther(tr, r, l) && Mild(tr, mode, s) && ScanOk(tr, mode, s, r)
    ensures var s' := ReadBack(tr, s, changed, r, l, k).0;
            Kept(tr, mode, s, s', r) && s'.cvs[r] == s.cvs[r] && Mild(tr, mode, s')
    decreases k
  {
    hide Merge, Mild, ScanOk, Hit, Kept;
    KeptRefl(tr, mode, s, r);
    if k > 0 {
      var w2, w := l[k - 1], tr[r].rf;
      if !tr[w2].write || s.cvs[w2].None? {
        ReadBackKept(tr, s, changed, r, l, k - 1, mode);
      } else {
        assert Third(tr, r, w2);
        var p := if Since(s.cvs[w2].value, tr[w].tid, w) then Merge(tr, s, w2, r) else (s, false);
        MergeSets(tr, s, w2, r);
        FirstKept(tr, s, r, w2, mode);
        if Since(p.0.cvs[r].value, tr[w2].tid, w2) {
          if p.0.cvs[w].Some? {
            SecondKept(tr, p.0, r, w2, mode);
            KeptTrans(tr, mode, s, p.0, Merge(tr, p.0, w, w2).0, r);
          }
        } else {
          ReadBackKept(tr, p.0, changed || p.1, r, l, k - 1, mode);
          KeptTrans(tr, mode, s, p.0, ReadBack(tr, p.0, changed || p.1, r, l, k - 1).0, r);
        }
      }
    }
  }

  lemma KeptRefl(tr: ScTrace, mode: Mode, s: Vectors, r: nat)
    ensures Kept(tr, mode, s, s, r)
  {
  }

  /** A third write takes in the read: an earlier one may be hit. */
  lemma FirstKept(tr: ScTrace, s: Vectors, r: nat, w2: nat, mode: Mode)
    requires |s.cvs| == |tr| && Third(tr, r, w2) && s.cvs[r].Some? && s.cvs[w2].Some? && tr[r].rf < r
             && Mild(tr, mode, s) && ScanOk(tr, mode, s, r)
    ensures var w := tr[r].rf;
            var s' := if Since(s.cvs[w2].value, tr[w].tid, w) then Merge(tr, s, w2, r).0 else s;
            && Kept(tr, mode, s, s', r) && |s'.cvs| == |tr| && s'.cvs[r] == s.cvs[r]
            && Mild(tr, mode, s') && ScanOk(tr, mode, s', r)
  {
    hide Mild, ScanOk;
    var w := tr[r].rf;
    if Since(s.cvs[w2].value, tr[w].tid, w) {
      AfterMild(tr, mode, s, r, w2);
      MergeStep(tr, s, w2, r, 0);
      ScanGoesOn(tr, mode, s, Merge(tr, s, w2, r).0, r);
      LateFirst(tr, mode, s, r, w2);
    }
  }

  lemma LateFirst(tr: ScTrace, mode: Mode, s: Vectors, r: nat, w2: nat)
    requires Third(tr, r, w2) && Mild(tr, mode, s)
    ensures w2 < r ==> Hit(tr, mode, w2)
  {
  }

  /** The write that is read takes in a third write: it may be hit, or does not change. */
  lemma SecondKept(tr: ScTrace, s: Vectors, r: nat, w2: nat, mode: Mode)
    requires |s.cvs| == |tr| && Third(tr, r, w2) && tr[r].rf < r && s.cvs[tr[r].rf].Some? && s.cvs[r].Some?
             && Since(s.cvs[r].value, tr[w2].tid, w2) && Mild(tr, mode, s) && ScanOk(tr, mode, s, r)
    ensures var s' := Merge(tr, s, tr[r].rf, w2).0;
            Kept(tr, mode, s, s', r) && s'.cvs[r] == s.cvs[r] && Mild(tr, mode, s')
  {
    hide Mild, ScanOk, Even;
    if mode.Late? {
      BeforeMild(tr, mode, s, r, w2);
    } else {
      assert Hit(tr, mode, tr[r].rf);
      AnyMild(tr, mode, Merge(tr, s, tr[r].rf, w2).0);
    }
  }

  lemma AnyMild(tr: ScTrace, mode: Mode, s: Vectors)
    requires mode.Any?
    ensures Mild(tr, mode, s) && ScanOk(tr, mode, s, 0)
  {
  }

  lemma {:induction false} ReadThreadsKept(tr: ScTrace, s: Vectors, changed: bool, r: nat, threads: nat, t: nat,
                                           mode: Mode)
    requires |s.cvs| == |tr| && r < |tr| && s.cvs[r].Some? && tr[r].read && tr[r].rf < r && t <= threads
    requires Mild(tr, mode, s) && ScanOk(tr, mode, s, r)
    ensures var s' := ReadThreads(tr, s, changed, r, threads, t).0;
            Kept(tr, mode, s, s', r) && s'.cvs[r] == s.cvs[r] && Mild(tr, mode, s')
    decreases threads - t
  {
    hide ReadBack, Mild, ScanOk, Hit, Kept;
    KeptRefl(tr, mode, s, r);
    if t < threads {
      if t == tr[r].tid || t == tr[tr[r].rf].tid {
        ReadThreadsKept(tr, s, changed, r, threads, t + 1, mode);
      } else {
        var l := OnObject(tr, tr[r].loc, t, |tr|);
        var p := ReadBack(tr, s, changed, r, l, |l|);
        ReadBackSets(tr, s, changed, r, l, |l|);
        ReadBackKept(tr, s, changed, r, l, |l|, mode);
        ReadBackGrow(tr, s, changed, r, l, |l|);
        ScanGoesOn(tr, mode, s, p.0, r);
        ReadThreadsKept(tr, p.0, p.1, r, threads, t + 1, mode);
        KeptTrans(tr, mode, s, p.0, ReadThreads(tr, p.0, p.1, r, threads, t + 1).0, r);
      }
    }
  }

  // ----- what a pass brings up to date -----

  lemma MergeIn(tr: ScTrace, s: Vectors, a: nat, b: nat)
    requires a < |s.cvs| == |tr| && b < |tr| && s.cvs[a].Some? && s.cvs[b].Some?
    ensures In(tr, Merge(tr, s, a, b).0, b, a)
  {
    var s' := Merge(tr, s, a, b).0;
    var c, d := s.cvs[a].value, s.cvs[b].value;
    if !Since(d, tr[a].tid, a) {
      assert s'.cvs[a] == Some(Join(c, d));
    }
  }

  lemma InKept(tr: ScTrace, s: Vectors, s': Vectors, b: nat, a: nat)
    requires a < |tr| == |s.cvs| && b < |tr| && Grew(s, s') && In(tr, s, b, a) && SameClock(s.cvs[b], s'.cvs[b])
    ensures In(tr, s', b, a)
  {
    var c, c' := s.cvs[b].value, s'.cvs[b].value;
    if Leq(c, s.cvs[a].value) {
      forall t: nat
        ensures At(c', t) <= At(s'.cvs[a].value, t)
      {
        assert At(c, t) == At(c', t) && At(c, t) <= At(s.cvs[a].value, t) <= At(s'.cvs[a].value, t);
      }
    } else {
      assert At(c, tr[a].tid) == At(c', tr[a].tid);
    }
  }

  /** Of the first n actions, everything is in that does not come from a write that may be hit. */
  ghost predicate UpTo(tr: ScTrace, mode: Mode, s: Vectors, n: nat) {
    && n <= |tr| == |s.cvs| && (forall x {:trigger s.cvs[x]} :: 0 <= x < n ==> s.cvs[x].Some?)
    && (Void(mode, s) || (Mild(tr, mode, s) && AllIn(tr, mode, s, n)))
  }

  ghost predicate AllIn(tr: ScTrace, mode: Mode, s: Vectors, n: nat)
    requires n <= |tr| == |s.cvs|
  {
    forall b: nat, a: nat {:trigger Direct(tr, b, a)} ::
      Direct(tr, b, a) && a < n && !Hit(tr, mode, b) ==> In(tr, s, b, a)
  }

  /** Every read observes an earlier write. */
  ghost predicate ReadsBack(tr: ScTrace) {
    forall r {:trigger tr[r]} :: 0 <= r < |tr| && tr[r].read ==> tr[r].rf < r
  }

  /** An action merged into a: one that it directly follows, with its clock set. */
  ghost predicate Earlier(tr: ScTrace, s: Vectors, b: Option<nat>, a: nat) {
    b.Some? ==> Direct(tr, b.value, a) && b.value < a && b.value < |s.cvs| && s.cvs[b.value].Some?
  }

  lemma MergeOne(tr: ScTrace, s: Vectors, a: nat, b: Option<nat>, mode: Mode)
    requires a < |s.cvs| == |tr| && s.cvs[a].Some? && Earlier(tr, s, b, a)
    ensures var s' := if b.Some? then Merge(tr, s, a, b.value).0 else s;
            && Grew(s, s') && |s'.cvs| == |tr| && s'.cvs[a].Some? && (Mild(tr, mode, s) ==> Mild(tr, mode, s'))
            && (forall x {:trigger s'.cvs[x]} :: 0 <= x < |tr| && x != a ==> s'.cvs[x] == s.cvs[x])
            && (b.Some? ==> In(tr, s', b.value, a))
  {
    hide In, Mild;
    GrewRefl(s);
    if b.Some? {
      MergeStep(tr, s, a, b.value, 0);
      MergeIn(tr, s, a, b.value);
      if Mild(tr, mode, s) {
        DirectMild(tr, mode, s, a, b.value);
      }
    }
  }

  function ReadOf(x: ScAction): Option<nat> {
    if x.read then Some(x.rf) else None
  }

  function MergedOne(tr: ScTrace, s: Vectors, a: nat, b: Option<nat>): Vectors
    requires a < |s.cvs| == |tr| && s.cvs[a].Some? && (b.Some? ==> b.value < |tr|)
  {
    if b.Some? then Merge(tr, s, a, b.value).0 else s
  }

  /** The three merges of a visit: predecessor, joined thread, what is read. */
  lemma MergesUp(tr: ScTrace, s: Vectors, a: nat, last: Option<nat>, mode: Mode) returns (s3: Vectors)
    requires a < |s.cvs| == |tr| && s.cvs[a].Some?
    requires Earlier(tr, s, last, a) && Earlier(tr, s, tr[a].join, a) && Earlier(tr, s, ReadOf(tr[a]), a)
    ensures var s1 := MergedOne(tr, s, a, last);
            && |s1.cvs| == |tr| && s1.cvs[a].Some?
            && var s2 := MergedOne(tr, s1, a, tr[a].join);
               |s2.cvs| == |tr| && s2.cvs[a].Some? && s3 == MergedOne(tr, s2, a, ReadOf(tr[a]))
    ensures Grew(s, s3) && |s3.cvs| == |tr| && s3.cvs[a].Some? && (Mild(tr, mode, s) ==> Mild(tr, mode, s3))
    ensures forall x {:trigger s3.cvs[x]} :: 0 <= x < |tr| && x != a ==> s3.cvs[x] == s.cvs[x]
    ensures (last.Some? ==> In(tr, s3, last.value, a)) && (tr[a].join.Some? ==> In(tr, s3, tr[a].join.value, a))
    ensures tr[a].read ==> In(tr, s3, tr[a].rf, a)
  {
    hide Merge, In, Mild, Direct;
    var s1 := MergedOne(tr, s, a, last);
    MergeOne(tr, s, a, last, mode);
    var s2 := MergedOne(tr, s1, a, tr[a].join);
    MergeOne(tr, s1, a, tr[a].join, mode);
    s3 := MergedOne(tr, s2, a, ReadOf(tr[a]));
    MergeOne(tr, s2, a, ReadOf(tr[a]), mode);
    GrewTrans(s, s1, s2);
    GrewTrans(s, s2, s3);
    GrewTrans(s1, s2, s3);
    if last.Some? {
      InKept(tr, s1, s3, last.value, a);
    }
    if tr[a].join.Some? {
      InKept(tr, s2, s3, tr[a].join.value, a);
    }
  }

  /** What a visit leaves alone and what it brings in. */
  lemma VisitUp(tr: ScTrace, s: Vectors, changed: bool, a: nat, last: Option<nat>, threads: nat, mode: Mode)
    requires Complete(tr, threads) && a < |s.cvs| == |tr| && ReadsBack(tr) && Started(tr)
    requires forall x {:trigger s.cvs[x]} :: 0 <= x < a ==> s.cvs[x].Some?
    requires Earlier(tr, s, last, a) && Earlier(tr, s, tr[a].join, a)
    requires Void(mode, s) || (Mild(tr, mode, s) && AllIn(tr, mode, s, a))
    ensures var s' := Visit(tr, s, changed, a, last, threads).0;
            && Grew(s, s') && |s'.cvs| == |tr| && s'.cvs[a].Some?
            && (Void(mode, s') || (Kept(tr, mode, s, s', a) && Mild(tr, mode, s') && Brought(tr, mode, s', a, last)))
  {
    hide Merge, Complete, ReadThreads, Hit, In, Mild, Direct, Void, AllIn, Kept, Brought, Started;
    CompleteAt(tr, threads, a);
    WithClockStep(tr, s, a, threads);
    var s0 := WithClock(tr, s, a);
    if Mild(tr, mode, s) {
      ClockMild(tr, mode, s, a);
    }
    if tr[a].read {
      ReadDirect(tr, a);
    }
    var s3 := MergesUp(tr, s0, a, last, mode);
    GrewTrans(s, s0, s3);
    if tr[a].read {
      var flag := VisitReads(tr, s, changed, a, last, threads);
      ReadThreadsGrow(tr, s3, flag, a, threads, 0);
      var s4 := ReadThreads(tr, s3, flag, a, threads, 0).0;
      GrewTrans(s, s3, s4);
      if Void(mode, s3) {
        VoidGrows(mode, s3, s4);
      } else {
        NotVoidBefore(mode, s, s3);
        EarlierIn(tr, mode, s, s3, a);
        ScanStarts(tr, mode, s3, a);
        ReadThreadsKept(tr, s3, flag, a, threads, 0, mode);
        OthersKept(tr, mode, s, s3, a);
        KeptTrans(tr, mode, s, s3, s4, a);
        BroughtAfter(tr, mode, s3, s4, a, last);
      }
    } else {
      if Void(mode, s) {
        VoidGrows(mode, s, s3);
      } else {
        OthersKept(tr, mode, s, s3, a);
        BroughtAll(tr, mode, s3, a, last);
      }
    }
  }

  /** What the action follows is in its clock, unless it may be hit. */
  ghost predicate Brought(tr: ScTrace, mode: Mode, s: Vectors, a: nat, last: Option<nat>)
    requires a < |tr| == |s.cvs|
  {
    && (last.Some? && last.value < |tr| && !Hit(tr, mode, last.value) ==> In(tr, s, last.value, a))
    && (tr[a].join.Some? && tr[a].join.value < |tr| && !Hit(tr, mode, tr[a].join.value) ==>
          In(tr, s, tr[a].join.value, a))
    && (tr[a].read && tr[a].rf < |tr| && !Hit(tr, mode, tr[a].rf) ==> In(tr, s, tr[a].rf, a))
  }

  lemma NotVoidBefore(mode: Mode, s: Vectors, s': Vectors)
    requires Grew(s, s') && !Void(mode, s')
    ensures !Void(mode, s)
  {
  }

  lemma OthersKept(tr: ScTrace, mode: Mode, s: Vectors, s': Vectors, a: nat)
    requires |s'.cvs| == |s.cvs| && forall x {:trigger s'.cvs[x]} :: 0 <= x < a && x < |s.cvs| ==> s'.cvs[x] == s.cvs[x]
    ensures Kept(tr, mode, s, s', a)
  {
  }

  lemma EarlierIn(tr: ScTrace, mode: Mode, s: Vectors, s': Vectors, a: nat)
    requires a < |tr| == |s.cvs| && Grew(s, s') && AllIn(tr, mode, s, a)
             && forall x {:trigger s'.cvs[x]} :: 0 <= x < a ==> s'.cvs[x] == s.cvs[x]
    ensures mode.Late? ==>
              forall b: nat, x: nat {:trigger Direct(tr, b, x)} :: Direct(tr, b, x) && x < a ==> In(tr, s', b, x)
  {
    hide In;
    if mode.Late? {
      forall b: nat, x: nat | Direct(tr, b, x) && x < a
        ensures In(tr, s', b, x)
      {
        DirectIn(tr, b, x);
        assert In(tr, s, b, x);
        InKept(tr, s, s', b, x);
      }
    }
  }

  lemma BroughtAll(tr: ScTrace, mode: Mode, s: Vectors, a: nat, last: Option<nat>)
    requires a < |tr| == |s.cvs| && (last.Some? && last.value < |tr| ==> In(tr, s, last.value, a))
    requires (tr[a].join.Some? && tr[a].join.value < |tr| ==> In(tr, s, tr[a].join.value, a))
             && (tr[a].read && tr[a].rf < |tr| ==> In(tr, s, tr[a].rf, a))
    ensures Brought(tr, mode, s, a, last)
  {
  }

  lemma BroughtAfter(tr: ScTrace, mode: Mode, s: Vectors, s': Vectors, a: nat, last: Option<nat>)
    requires a < |tr| == |s.cvs| && Grew(s, s') && Kept(tr, mode, s, s', a)
    requires (last.Some? ==> last.value < a && In(tr, s, last.value, a))
             && (tr[a].join.Some? ==> tr[a].join.value < a && In(tr, s, tr[a].join.value, a))
             && (tr[a].read ==> tr[a].rf < a && In(tr, s, tr[a].rf, a))
    ensures Brought(tr, mode, s', a, last)
  {
    hide In, Hit;
    if last.Some? && !Hit(tr, mode, last.value) {
      InKept(tr, s, s', last.value, a);
    }
    if tr[a].join.Some? && !Hit(tr, mode, tr[a].join.value) {
      InKept(tr, s, s', tr[a].join.value, a);
    }
    if tr[a].read && !Hit(tr, mode, tr[a].rf) {
      InKept(tr, s, s', tr[a].rf, a);
    }
  }

  /** A visit to a read ends with the scan of the other threads. */
  lemma VisitReads(tr: ScTrace, s: Vectors, changed: bool, a: nat, last: Option<nat>, threads: nat) returns (flag: bool)
    requires Complete(tr, threads) && a < |s.cvs| == |tr| && (last.Some? ==> last.value < |tr|) && tr[a].read
    ensures (tr[a].join.Some? ==> tr[a].join.value < |tr|) && tr[a].rf < |tr|
    ensures var s0 := WithClock(tr, s, a);
            var s1 := MergedOne(tr, s0, a, last);
            && |s1.cvs| == |tr| && s1.cvs[a].Some?
            && var s2 := MergedOne(tr, s1, a, tr[a].join);
               && |s2.cvs| == |tr| && s2.cvs[a].Some?
               && var s3 := MergedOne(tr, s2, a, Some(tr[a].rf));
                  && |s3.cvs| == |tr| && s3.cvs[a].Some?
                  && Visit(tr, s, changed, a, last, threads).0 == ReadThreads(tr, s3, flag, a, threads, 0).0
  {
    hide Merge, Complete, ReadThreads;
    CompleteAt(tr, threads, a);
    var s0 := WithClock(tr, s, a);
    MergeKeeps(tr, s0, a, last);
    var s1 := MergedOne(tr, s0, a, last);
    MergeKeeps(tr, s1, a, tr[a].join);
    var s2 := MergedOne(tr, s1, a, tr[a].join);
    MergeSets(tr, s2, a, tr[a].rf);
    flag := Merge(tr, s2, a, tr[a].rf).1 && a < tr[a].rf;
  }

  lemma {:induction false} ReadThreadsGrow(tr: ScTrace, s: Vectors, changed: bool, r: nat, threads: nat, t: nat)
    requires |s.cvs| == |tr| && r < |tr| && s.cvs[r].Some? && tr[r].rf < |tr| && t <= threads
    ensures Grew(s, ReadThreads(tr, s, changed, r, threads, t).0)
    decreases threads - t
  {
    hide ReadBack;
    GrewRefl(s);
    if t < threads {
      if t == tr[r].tid || t == tr[tr[r].rf].tid {
        ReadThreadsGrow(tr, s, changed, r, threads, t + 1);
      } else {
        var l := OnObject(tr, tr[r].loc, t, |tr|);
        var p := ReadBack(tr, s, changed, r, l, |l|);
        ReadBackSets(tr, s, changed, r, l, |l|);
        ReadBackGrow(tr, s, changed, r, l, |l|);
        ReadThreadsGrow(tr, p.0, p.1, r, threads, t + 1);
        GrewTrans(s, p.0, ReadThreads(tr, p.0, p.1, r, threads, t + 1).0);
      }
    }
  }

  lemma {:induction false} ReadBackGrow(tr: ScTrace, s: Vectors, changed: bool, r: nat, l: seq<nat>, k: nat)
    requires |s.cvs| == |tr| && r < |tr| && s.cvs[r].Some? && tr[r].rf < |tr| && k <= |l| && Listed(tr, l)
    ensures Grew(s, ReadBack(tr, s, changed, r, l, k).0)
    decreases k
  {
    hide Merge;
    GrewRefl(s);
    if k > 0 {
      var w2, w := l[k - 1], tr[r].rf;
      if !tr[w2].write || s.cvs[w2].None? {
        ReadBackGrow(tr, s, changed, r, l, k - 1);
      } else {
        var p := if Since(s.cvs[w2].value, tr[w].tid, w) then Merge(tr, s, w2, r) else (s, false);
        MergeSets(tr, s, w2, r);
        MergeStep(tr, s, w2, r, 0);
        if Since(p.0.cvs[r].value, tr[w2].tid, w2) {
          if p.0.cvs[w].Some? {
            MergeStep(tr, p.0, w, w2, 0);
            GrewTrans(s, p.0, Merge(tr, p.0, w, w2).0);
          }
        } else {
          ReadBackGrow(tr, p.0, changed || p.1, r, l, k - 1);
          GrewTrans(s, p.0, ReadBack(tr, p.0, changed || p.1, r, l, k - 1).0);
        }
      }
    }
  }

  lemma {:induction false} PassUp(tr: ScTrace, s: Vectors, changed: bool, a: nat, last: map<nat, nat>, threads: nat,
                                  mode: Mode)
    requires Complete(tr, threads) && a <= |s.cvs| == |tr| && LastOk(tr, last) && Latest(tr, last, a) && Backward(tr)
             && ReadsBack(tr) && Started(tr) && UpTo(tr, mode, s, a)
    ensures UpTo(tr, mode, Pass(tr, s, changed, a, last, threads).0, |tr|)
    decreases |tr| - a
  {
    hide Visit, Complete, Latest, UpTo, Backward, ReadsBack, Started;
    if a < |tr| {
      CompleteAt(tr, threads, a);
      VisitUpTo(tr, s, changed, a, last, threads, mode);
      var v := Visit(tr, s, changed, a, LastAct(tr, last, a), threads);
      LatestNext(tr, last, a);
      PassUp(tr, v.0, v.1, a + 1, last[tr[a].tid := a], threads, mode);
    }
  }

  lemma VisitUpTo(tr: ScTrace, s: Vectors, changed: bool, a: nat, last: map<nat, nat>, threads: nat, mode: Mode)
    requires Complete(tr, threads) && a < |s.cvs| == |tr| && LastOk(tr, last) && Latest(tr, last, a) && Backward(tr)
             && ReadsBack(tr) && Started(tr) && UpTo(tr, mode, s, a)
    ensures (LastAct(tr, last, a).Some? ==> LastAct(tr, last, a).value < |tr|)
    ensures UpTo(tr, mode, Visit(tr, s, changed, a, LastAct(tr, last, a), threads).0, a + 1)
  {
    hide Visit, Complete, Mild, In, Hit, Void, Brought, Direct, AllIn, Kept, Started;
    CompleteAt(tr, threads, a);
    var l := LastAct(tr, last, a);
    if l.Some? {
      LastDirect(tr, last, a);
      DirectIn(tr, l.value, a);
    }
    if tr[a].join.Some? {
      JoinDirect(tr, a);
      DirectIn(tr, tr[a].join.value, a);
    }
    VisitUp(tr, s, changed, a, l, threads, mode);
    var s' := Visit(tr, s, changed, a, l, threads).0;
    if !Void(mode, s') {
      NotVoidBefore(mode, s, s');
      NextIn(tr, mode, s, s', a, last);
    }
  }

  lemma NextIn(tr: ScTrace, mode: Mode, s: Vectors, s': Vectors, a: nat, last: map<nat, nat>)
    requires a < |tr| == |s.cvs| && Grew(s, s') && Kept(tr, mode, s, s', a) && AllIn(tr, mode, s, a)
             && Latest(tr, last, a) && Brought(tr, mode, s', a, LastAct(tr, last, a))
    ensures AllIn(tr, mode, s', a + 1)
  {
    hide In, Hit, Latest;
    forall b: nat, x: nat | Direct(tr, b, x) && x < a + 1 && !Hit(tr, mode, b)
      ensures In(tr, s', b, x)
    {
      DirectIn(tr, b, x);
      if x == a {
        DirectMerged(tr, last, b, a);
      } else {
        assert In(tr, s, b, x);
        InKept(tr, s, s', b, x);
      }
    }
  }

  // ----- a pass that counts no change -----

  /** Where all orderings into a are in, an uncounted visit changes nothing. */
  lemma VisitStays(tr: ScTrace, u: Vectors, a: nat, last: Option<nat>, threads: nat)
    requires Complete(tr, threads) && a < |u.cvs| == |tr| && (last.Some? ==> last.value < |tr|) && AllSet(u)
    requires (last.Some? ==> Under(tr, u, last.value, a))
             && (tr[a].join.Some? ==> tr[a].join.value < |tr| && Under(tr, u, tr[a].join.value, a))
    requires (tr[a].read ==> tr[a].rf < |tr| && Under(tr, u, tr[a].rf, a)) && !Visit(tr, u, false, a, last, threads).1
    ensures Still(u, Visit(tr, u, false, a, last, threads).0)
  {
    hide Merge, Complete, ReadThreads, Under, Still, Visit;
    VisitMerged(tr, u, a, last, threads);
    MergesStay(tr, u, a, last);
    var p := Merged(tr, u, a, last);
    if tr[a].read {
      ReadThreadsStill(tr, p.0, false, a, threads, 0);
      StillTrans(u, p.0, ReadThreads(tr, p.0, false, a, threads, 0).0);
    }
  }

  lemma MergesStay(tr: ScTrace, u: Vectors, a: nat, last: Option<nat>)
    requires a < |u.cvs| == |tr| && (last.Some? ==> last.value < |tr|) && AllSet(u)
    requires (last.Some? ==> Under(tr, u, last.value, a))
             && (tr[a].join.Some? ==> tr[a].join.value < |tr| && Under(tr, u, tr[a].join.value, a))
    requires tr[a].read ==> tr[a].rf < |tr| && Under(tr, u, tr[a].rf, a)
    ensures Still(u, Merged(tr, u, a, last).0)
  {
    hide Merge, Under, Still;
    StillRefl(u);
    MergeKeeps(tr, u, a, last);
    var u1 := if last.Some? then Merge(tr, u, a, last.value).0 else u;
    if last.Some? {
      UnderQuiet(tr, u, last.value, a);
    }
    StillSet(u, u1);
    MergeKeeps(tr, u1, a, tr[a].join);
    var u2 := if tr[a].join.Some? then Merge(tr, u1, a, tr[a].join.value).0 else u1;
    if tr[a].join.Some? {
      StillUnder(tr, u, u1, tr[a].join.value, a);
      UnderQuiet(tr, u1, tr[a].join.value, a);
      StillTrans(u, u1, u2);
    }
    StillSet(u, u2);
    if tr[a].read {
      StillUnder(tr, u, u2, tr[a].rf, a);
      UnderQuiet(tr, u2, tr[a].rf, a);
      StillTrans(u, u2, Merge(tr, u2, a, tr[a].rf).0);
    }
  }

  /** During a pass: the actions from a on are as before, and of the earlier ones those that are not reached. */
  ghost predicate Lag(tr: ScTrace, mode: Mode, s: Vectors, u: Vectors, a: nat) {
    && AllSet(s) && AllSet(u) && |s.cvs| == |u.cvs| == |tr| && (s.cyclic ==> u.cyclic)
    && (forall x: nat {:trigger u.cvs[x]} ::
          x < |tr| && (a <= x || !Reached(tr, mode, x)) ==> Even(s.cvs[x].value, u.cvs[x].value))
  }

  lemma InUnder(tr: ScTrace, mode: Mode, s: Vectors, u: Vectors, b: nat, a: nat)
    requires UpTo(tr, mode, s, |tr|) && !Void(mode, s) && Lag(tr, mode, s, u, a) && Direct(tr, b, a)
             && !Reached(tr, mode, a)
    ensures b < a < |tr| && Under(tr, u, b, a)
  {
    hide Direct, Reached, Hit;
    DirectIn(tr, b, a);
    if Hit(tr, mode, b) || Reached(tr, mode, b) {
      ReachedNext(tr, mode, b, a);
    }
    assert In(tr, s, b, a);
    var c, d, c', d' := s.cvs[b].value, s.cvs[a].value, u.cvs[b].value, u.cvs[a].value;
    assert Even(c, c') && Even(d, d');
    if Leq(c, d) {
      forall t: nat
        ensures At(c', t) <= At(d', t)
      {
        assert At(c, t) == At(c', t) && At(d, t) == At(d', t) && At(c, t) <= At(d, t);
      }
    } else {
      assert At(c, tr[a].tid) == At(c', tr[a].tid);
    }
  }

  lemma VisitLag(tr: ScTrace, mode: Mode, s: Vectors, u: Vectors, a: nat, last: map<nat, nat>, threads: nat)
    requires Complete(tr, threads) && a < |tr| && LastOk(tr, last) && Latest(tr, last, a) && Backward(tr)
             && ReadsBack(tr)
    requires UpTo(tr, mode, s, |tr|) && !Void(mode, s) && Lag(tr, mode, s, u, a)
             && !Visit(tr, u, false, a, LastAct(tr, last, a), threads).1
    ensures Lag(tr, mode, s, Visit(tr, u, false, a, LastAct(tr, last, a), threads).0, a + 1)
  {
    hide Visit, Complete, UpTo, Under, Reached, Direct, Latest;
    CompleteAt(tr, threads, a);
    var l := LastAct(tr, last, a);
    VisitOnly(tr, u, false, a, l, threads);
    var v := Visit(tr, u, false, a, l, threads).0;
    if !Reached(tr, mode, a) {
      if l.Some? {
        LastDirect(tr, last, a);
        InUnder(tr, mode, s, u, l.value, a);
      }
      if tr[a].join.Some? {
        JoinDirect(tr, a);
        InUnder(tr, mode, s, u, tr[a].join.value, a);
      }
      if tr[a].read {
        ReadDirect(tr, a);
        InUnder(tr, mode, s, u, tr[a].rf, a);
      }
      VisitStays(tr, u, a, l, threads);
    }
    forall x: nat | x < |tr| && (a + 1 <= x || !Reached(tr, mode, x))
      ensures Even(s.cvs[x].value, v.cvs[x].value)
    {
      assert Even(s.cvs[x].value, u.cvs[x].value) && Even(u.cvs[x].value, v.cvs[x].value);
      EvenTrans(s.cvs[x].value, u.cvs[x].value, v.cvs[x].value);
    }
  }

  /** In a pass without a counted change, later visits leave earlier clocks alone. */
  lemma {:induction false} PassOnly(tr: ScTrace, u: Vectors, a: nat, last: map<nat, nat>, threads: nat)
    requires Complete(tr, threads) && a <= |u.cvs| == |tr| && LastOk(tr, last) && AllSet(u)
             && !Pass(tr, u, false, a, last, threads).1
    ensures var f := Pass(tr, u, false, a, last, threads).0;
            && AllSet(f) && (u.cyclic ==> f.cyclic)
            && forall x {:trigger f.cvs[x]} :: 0 <= x < a ==> Even(u.cvs[x].value, f.cvs[x].value)
    decreases |tr| - a
  {
    hide Visit, Complete, Even;
    if a < |tr| {
      CompleteAt(tr, threads, a);
      var l := LastAct(tr, last, a);
      var v := Visit(tr, u, false, a, l, threads);
      if v.1 {
        PassSticky(tr, v.0, a + 1, last[tr[a].tid := a], threads);
      }
      VisitOnly(tr, u, false, a, l, threads);
      PassOnly(tr, v.0, a + 1, last[tr[a].tid := a], threads);
      var f := Pass(tr, u, false, a, last, threads).0;
      forall x | 0 <= x < a
        ensures Even(u.cvs[x].value, f.cvs[x].value)
      {
        EvenTrans(u.cvs[x].value, v.0.cvs[x].value, f.cvs[x].value);
      }
    } else {
      forall x | 0 <= x < a
        ensures Even(u.cvs[x].value, u.cvs[x].value)
      {
        EvenRefl(u.cvs[x].value);
      }
    }
  }

  lemma EvenRefl(c: Clock)
    ensures Even(c, c)
  {
  }

  lemma {:induction false} PassLag(tr: ScTrace, mode: Mode, s: Vectors, u: Vectors, a: nat,
                                   last: map<nat, nat>, threads: nat)
    requires Complete(tr, threads) && a <= |tr| && LastOk(tr, last) && Latest(tr, last, a) && Backward(tr)
             && ReadsBack(tr)
    requires UpTo(tr, mode, s, |tr|) && !Void(mode, s) && Lag(tr, mode, s, u, a) && |u.cvs| == |tr|
             && !Pass(tr, u, false, a, last, threads).1
    ensures Lag(tr, mode, s, Pass(tr, u, false, a, last, threads).0, |tr|)
    decreases |tr| - a
  {
    hide Visit, Complete, UpTo, Lag, Latest, Backward, ReadsBack;
    if a < |tr| {
      CompleteAt(tr, threads, a);
      var v := Visit(tr, u, false, a, LastAct(tr, last, a), threads);
      LatestNext(tr, last, a);
      if v.1 {
        PassSticky(tr, v.0, a + 1, last[tr[a].tid := a], threads);
      }
      VisitLag(tr, mode, s, u, a, last, threads);
      PassLag(tr, mode, s, v.0, a + 1, last[tr[a].tid := a], threads);
    }
  }

  /** What the scan at r saw in the last pass, compared with the clocks before and after the pass. */
  ghost predicate Seen(tr: ScTrace, mode: Mode, s: Vectors, m: Vectors, f: Vectors, r: nat, threads: nat)
    requires r < |tr| == |m.cvs| && tr[r].rf < |tr| && AllSet(m)
  {
    && AllSet(s) && AllSet(f) && |s.cvs| == |f.cvs| == |tr|
    && !ReadThreads(tr, m, false, r, threads, 0).1
    && (!f.cyclic ==> !m.cyclic && !ReadThreads(tr, m, false, r, threads, 0).0.cyclic)
    && (forall x: nat {:trigger m.cvs[x]} :: x <= r ==> Even(m.cvs[x].value, f.cvs[x].value))
    && (forall x: nat {:trigger m.cvs[x]} :: r < x < |tr| ==> Even(s.cvs[x].value, m.cvs[x].value))
  }

  lemma {:induction false} LastVisit(tr: ScTrace, mode: Mode, s: Vectors, u: Vectors, a: nat,
                                     last: map<nat, nat>, threads: nat, r: nat)
    returns (m: Vectors)
    requires Complete(tr, threads) && a <= r < |tr| && LastOk(tr, last) && Latest(tr, last, a) && Backward(tr)
             && ReadsBack(tr)
    requires UpTo(tr, mode, s, |tr|) && !Void(mode, s) && Lag(tr, mode, s, u, a) && |u.cvs| == |tr|
             && !Pass(tr, u, false, a, last, threads).1 && tr[r].read
    ensures |m.cvs| == |tr| && tr[r].rf < |tr| && AllSet(m)
    ensures Seen(tr, mode, s, m, Pass(tr, u, false, a, last, threads).0, r, threads)
    decreases |tr| - a
  {
    hide Visit, Complete, UpTo, Latest, Backward, ReadsBack, Lag, Seen;
    CompleteAt(tr, threads, a);
    var l, last' := LastAct(tr, last, a), last[tr[a].tid := a];
    var v := Visit(tr, u, false, a, l, threads);
    LatestNext(tr, last, a);
    if v.1 {
      PassSticky(tr, v.0, a + 1, last', threads);
    }
    VisitLag(tr, mode, s, u, a, last, threads);
    if a < r {
      m := LastVisit(tr, mode, s, v.0, a + 1, last', threads, r);
    } else {
      m := SeenHere(tr, mode, s, u, a, l, last', threads);
    }
  }

  lemma SeenHere(tr: ScTrace, mode: Mode, s: Vectors, u: Vectors, r: nat, l: Option<nat>,
                 last': map<nat, nat>, threads: nat)
    returns (m: Vectors)
    requires Complete(tr, threads) && r < |tr| && LastOk(tr, last') && Lag(tr, mode, s, u, r) && tr[r].read
             && (l.Some? ==> l.value < |tr|)
    requires !Visit(tr, u, false, r, l, threads).1 && |Visit(tr, u, false, r, l, threads).0.cvs| == |tr|
    requires !Pass(tr, Visit(tr, u, false, r, l, threads).0, false, r + 1, last', threads).1
    ensures |m.cvs| == |tr| && tr[r].rf < |tr| && AllSet(m)
    ensures Seen(tr, mode, s, m, Pass(tr, Visit(tr, u, false, r, l, threads).0, false, r + 1, last', threads).0, r,
                 threads)
  {
    hide Visit, Complete, Merge, ReadThreads, Reached, Pass;
    CompleteAt(tr, threads, r);
    VisitMerged(tr, u, r, l, threads);
    m := Merged(tr, u, r, l).0;
    MergedOnly(tr, u, r, l);
    ReadThreadsStill(tr, m, false, r, threads, 0);
    var v := ReadThreads(tr, m, false, r, threads, 0).0;
    PassOnly(tr, v, r + 1, last', threads);
    var f := Pass(tr, v, false, r + 1, last', threads).0;
    forall x: nat | x <= r
      ensures Even(m.cvs[x].value, f.cvs[x].value)
    {
      assert Even(m.cvs[x].value, v.cvs[x].value) && Even(v.cvs[x].value, f.cvs[x].value);
      EvenTrans(m.cvs[x].value, v.cvs[x].value, f.cvs[x].value);
    }
  }

  /** Only the clock of a has changed. */
  ghost predicate OthersSame(s: Vectors, s': Vectors, a: nat) {
    && |s'.cvs| == |s.cvs| && (s.cyclic ==> s'.cyclic)
    && forall x {:trigger s.cvs[x]} {:trigger s'.cvs[x]} :: 0 <= x < |s.cvs| && x != a ==> s'.cvs[x] == s.cvs[x]
  }

  lemma MergedOnly(tr: ScTrace, s: Vectors, a: nat, last: Option<nat>)
    requires a < |s.cvs| == |tr| && AllSet(s) && (last.Some? ==> last.value < |tr|)
    requires (tr[a].join.Some? ==> tr[a].join.value < |tr|) && (tr[a].read ==> tr[a].rf < |tr|)
    ensures OthersSame(s, Merged(tr, s, a, last).0, a)
  {
    hide Merge;
    MergeKeeps(tr, s, a, last);
    var s1 := if last.Some? then Merge(tr, s, a, last.value).0 else s;
    OnlyOne(tr, s, a, last);
    MergeKeeps(tr, s1, a, tr[a].join);
    OnlyOne(tr, s1, a, tr[a].join);
    var s2 := if tr[a].join.Some? then Merge(tr, s1, a, tr[a].join.value).0 else s1;
    OnlyOne(tr, s2, a, ReadOf(tr[a]));
  }

  lemma OnlyOne(tr: ScTrace, s: Vectors, a: nat, b: Option<nat>)
    requires a < |s.cvs| == |tr| && s.cvs[a].Some? && (b.Some? ==> b.value < |tr|)
    ensures b.Some? ==> OthersSame(s, Merge(tr, s, a, b.value).0, a)
  {
  }

  // ----- scans of equal clocks -----

  /** The same entries for the given actions. */
  ghost predicate EvenOn(s: Vectors, u: Vectors, xs: set<nat>) {
    && AllSet(s) && AllSet(u) && |s.cvs| == |u.cvs|
    && forall x {:trigger x in xs} :: x in xs && x < |s.cvs| ==> Even(s.cvs[x].value, u.cvs[x].value)
  }

  /** From s to p and from u to q, the same was found. */
  ghost predicate AsMuch(s: Vectors, p: (Vectors, bool), u: Vectors, q: (Vectors, bool)) {
    p.1 == q.1 && ((u.cyclic ==> s.cyclic) ==> (q.0.cyclic ==> p.0.cyclic))
  }

  lemma MergeEvenOn(tr: ScTrace, s: Vectors, u: Vectors, xs: set<nat>, a: nat, b: nat)
    requires a < |s.cvs| == |tr| && b < |tr| && EvenOn(s, u, xs) && a in xs && b in xs
    ensures AsMuch(s, Merge(tr, s, a, b), u, Merge(tr, u, a, b))
            && EvenOn(Merge(tr, s, a, b).0, Merge(tr, u, a, b).0, xs)
  {
    var c, d, c', d' := s.cvs[a].value, s.cvs[b].value, u.cvs[a].value, u.cvs[b].value;
    assert Even(c, c') && Even(d, d');
    EvenExceeds(c, d, c', d');
    assert At(d, tr[a].tid) == At(d', tr[a].tid);
    assert Even(Join(c, d), Join(c', d')) by {
      forall t: nat
        ensures At(Join(c, d), t) == At(Join(c', d'), t)
      {
        assert At(c, t) == At(c', t) && At(d, t) == At(d', t);
      }
    }
  }

  /** The actions the scan of r looks at. */
  ghost predicate Covers(tr: ScTrace, r: nat, xs: set<nat>)
    requires r < |tr|
  {
    r in xs && tr[r].rf in xs && forall w2: nat {:trigger Third(tr, r, w2)} :: Third(tr, r, w2) ==> w2 in xs
  }

  lemma SinceEvenOn(s: Vectors, u: Vectors, xs: set<nat>, a: nat, t: nat, x: nat)
    requires EvenOn(s, u, xs) && a in xs && a < |s.cvs|
    ensures Since(s.cvs[a].value, t, x) == Since(u.cvs[a].value, t, x)
  {
    assert At(s.cvs[a].value, t) == At(u.cvs[a].value, t);
  }

  lemma {:induction false} ReadBackEvenOn(tr: ScTrace, s: Vectors, u: Vectors, changed: bool, r: nat, l: seq<nat>,
                                          k: nat, xs: set<nat>)
    requires |s.cvs| == |tr| && r < |tr| && tr[r].read && tr[r].rf < |tr| && k <= |l| && Listed(tr, l)
             && OfOther(tr, r, l)
    requires EvenOn(s, u, xs) && Covers(tr, r, xs)
    ensures AsMuch(s, ReadBack(tr, s, changed, r, l, k), u, ReadBack(tr, u, changed, r, l, k))
    ensures EvenOn(ReadBack(tr, s, changed, r, l, k).0, ReadBack(tr, u, changed, r, l, k).0, xs)
    decreases k
  {
    hide Merge, Since, Even, Listed;
    if k > 0 {
      var w2, w := l[k - 1], tr[r].rf;
      if !tr[w2].write {
        ReadBackEvenOn(tr, s, u, changed, r, l, k - 1, xs);
      } else {
        assert Third(tr, r, w2);
        MergeEvenOn(tr, s, u, xs, w2, r);
        MergeSets(tr, s, w2, r);
        MergeSets(tr, u, w2, r);
        SinceEvenOn(s, u, xs, w2, tr[w].tid, w);
        var p := if Since(s.cvs[w2].value, tr[w].tid, w) then Merge(tr, s, w2, r) else (s, false);
        var q := if Since(u.cvs[w2].value, tr[w].tid, w) then Merge(tr, u, w2, r) else (u, false);
        SinceEvenOn(p.0, q.0, xs, r, tr[w2].tid, w2);
        if Since(p.0.cvs[r].value, tr[w2].tid, w2) {
          MergeEvenOn(tr, p.0, q.0, xs, w, w2);
        } else {
          ReadBackEvenOn(tr, p.0, q.0, changed || p.1, r, l, k - 1, xs);
        }
      }
    }
  }

  lemma {:induction false} ReadThreadsEvenOn(tr: ScTrace, s: Vectors, u: Vectors, changed: bool, r: nat,
                                             threads: nat, t: nat, xs: set<nat>)
    requires |s.cvs| == |tr| && r < |tr| && tr[r].read && tr[r].rf < |tr| && t <= threads
    requires EvenOn(s, u, xs) && Covers(tr, r, xs)
    ensures AsMuch(s, ReadThreads(tr, s, changed, r, threads, t), u, ReadThreads(tr, u, changed, r, threads, t))
    decreases threads - t
  {
    hide ReadBack, Even, Covers;
    if t < threads {
      if t == tr[r].tid || t == tr[tr[r].rf].tid {
        ReadThreadsEvenOn(tr, s, u, changed, r, threads, t + 1, xs);
      } else {
        var l := OnObject(tr, tr[r].loc, t, |tr|);
        ReadBackEvenOn(tr, s, u, changed, r, l, |l|, xs);
        var p, q := ReadBack(tr, s, changed, r, l, |l|), ReadBack(tr, u, changed, r, l, |l|);
        ReadBackSets(tr, s, changed, r, l, |l|);
        ReadBackSets(tr, u, changed, r, l, |l|);
        ReadThreadsEvenOn(tr, p.0, q.0, p.1, r, threads, t + 1, xs);
      }
    }
  }

  /** What the scan at r looks at: itself, what it reads, and the third writes. */
  ghost function Scanned(tr: ScTrace, r: nat): (xs: set<nat>)
    requires r < |tr|
    ensures Covers(tr, r, xs) && forall x :: x in xs ==> x == r || x == tr[r].rf || Third(tr, r, x)
  {
    {r, tr[r].rf} + set w2 | 0 <= w2 < |tr| && Third(tr, r, w2)
  }

  /** The clocks at the end look to the scan as those of its last visit did. */
  lemma ScanAgain(tr: ScTrace, mode: Mode, s: Vectors, m: Vectors, f: Vectors, r: nat, threads: nat)
    requires r < |tr| == |m.cvs| && tr[r].read && tr[r].rf < r && AllSet(m) && Seen(tr, mode, s, m, f, r, threads)
    requires Lag(tr, mode, s, f, |tr|) && (mode.Late? || Apart(tr))
    ensures !ReadThreads(tr, f, false, r, threads, 0).1
            && (!f.cyclic ==> !ReadThreads(tr, f, false, r, threads, 0).0.cyclic)
  {
    hide ReadThreads, Third, Even, Reached;
    var xs := Scanned(tr, r);
    forall x | x in xs && x < |tr|
      ensures Even(m.cvs[x].value, f.cvs[x].value)
    {
      if x > r {
        LateNotReached(tr, mode, r, x);
        EvenSym(s.cvs[x].value, m.cvs[x].value);
        EvenTrans(m.cvs[x].value, s.cvs[x].value, f.cvs[x].value);
      }
    }
    ReadThreadsEvenOn(tr, m, f, false, r, threads, 0, xs);
  }

  lemma LateNotReached(tr: ScTrace, mode: Mode, r: nat, w2: nat)
    requires Third(tr, r, w2) && r < w2 && (mode.Late? || Apart(tr))
    ensures !Reached(tr, mode, w2)
  {
  }

  lemma EvenSym(c: Clock, d: Clock)
    requires Even(c, d)
    ensures Even(d, c)
  {
    forall t: nat
      ensures At(d, t) == At(c, t)
    {
      assert At(c, t) == At(d, t);
    }
  }
  // ----- nothing is left to find -----

  /** Without a cycle at the end, no merge of the last pass was refused. */
  lemma VisitAccepts(tr: ScTrace, u: Vectors, a: nat, last: Option<nat>, threads: nat)
    requires Complete(tr, threads) && a < |u.cvs| == |tr| && (last.Some? ==> last.value < a) && AllSet(u)
    requires (tr[a].join.Some? ==> tr[a].join.value < a) && (tr[a].read ==> tr[a].rf < a)
    requires !Visit(tr, u, false, a, last, threads).0.cyclic
    ensures !u.cyclic && (last.Some? ==> !Since(u.cvs[last.value].value, tr[a].tid, a))
    ensures tr[a].join.Some? ==> !Since(u.cvs[tr[a].join.value].value, tr[a].tid, a)
    ensures tr[a].read ==> !Since(u.cvs[tr[a].rf].value, tr[a].tid, a)
  {
    hide Complete, Visit;
    VisitMerged(tr, u, a, last, threads);
    var p := Merged(tr, u, a, last);
    assert !p.0.cyclic;
    MergeKeeps(tr, u, a, last);
    var u1 := if last.Some? then Merge(tr, u, a, last.value).0 else u;
    OnlyOne(tr, u, a, last);
    MergeKeeps(tr, u1, a, tr[a].join);
    OnlyOne(tr, u1, a, tr[a].join);
    var u2 := if tr[a].join.Some? then Merge(tr, u1, a, tr[a].join.value).0 else u1;
    OnlyOne(tr, u2, a, ReadOf(tr[a]));
  }

  lemma {:induction false} PassAccepts(tr: ScTrace, u: Vectors, a: nat, last: map<nat, nat>, threads: nat, b: nat,
                                       x: nat)
    requires Complete(tr, threads) && a <= x < |u.cvs| == |tr| && LastOk(tr, last) && Latest(tr, last, a)
             && Backward(tr) && ReadsBack(tr)
    requires AllSet(u) && Direct(tr, b, x)
    requires var p := Pass(tr, u, false, a, last, threads); !p.1 && !p.0.cyclic
    ensures var f := Pass(tr, u, false, a, last, threads).0;
            b < x && AllSet(f) && !Since(f.cvs[b].value, tr[x].tid, x)
    decreases |tr| - a
  {
    hide Visit, Complete, Latest, Direct;
    CompleteAt(tr, threads, a);
    DirectIn(tr, b, x);
    var l, last' := LastAct(tr, last, a), last[tr[a].tid := a];
    var v := Visit(tr, u, false, a, l, threads);
    LatestNext(tr, last, a);
    if v.1 {
      PassSticky(tr, v.0, a + 1, last', threads);
    }
    PassCyclic(tr, v.0, v.1, a + 1, last', threads);
    PassOnly(tr, u, a, last, threads);
    VisitOnly(tr, u, false, a, l, threads);
    if a < x {
      PassAccepts(tr, v.0, a + 1, last', threads, b, x);
    } else {
      if l.Some? {
        LastDirect(tr, last, a);
        DirectIn(tr, l.value, a);
      }
      VisitAccepts(tr, u, a, l, threads);
      DirectMerged(tr, last, b, a);
      var f := Pass(tr, u, false, a, last, threads).0;
      assert Even(u.cvs[b].value, f.cvs[b].value);
      assert At(u.cvs[b].value, tr[x].tid) == At(f.cvs[b].value, tr[x].tid);
    }
  }

  /** With reads, creations and joins looking back, following is direct. */
  lemma FollowsDirect(tr: ScTrace, b: nat, a: nat)
    requires Backward(tr) && ReadsBack(tr) && Follows(tr, b, a)
    ensures Direct(tr, b, a)
  {
  }

  /** The last pass, seen from its end: no scan would find anything, and without a cycle everything is in. */
  lemma LastPassFinds(tr: ScTrace, mode: Mode, s: Vectors, threads: nat)
    requires Complete(tr, threads) && Regular(tr) && ReadsBack(tr) && (mode.Late? || Apart(tr))
             && UpTo(tr, mode, s, |tr|)
             && !Void(mode, s) && AllSet(s)
    requires |s.cvs| == |tr| && !Pass(tr, s, false, 0, map[], threads).1
    ensures var f := Pass(tr, s, false, 0, map[], threads).0;
            && |f.cvs| == |tr| && AllSet(f)
            && (forall r: nat {:trigger tr[r]} ::
                  r < |tr| && tr[r].read ==> tr[r].rf < |tr| && !ReadThreads(tr, f, false, r, threads, 0).1)
            && (!f.cyclic ==> IsOrder(tr, f))
  {
    hide Pass, Complete, UpTo, Backward, Started, ReadsOthers, ReadThreads, Apart, Latest, Lag, Seen, IsOrder;
    LagStart(tr, mode, s);
    NothingYet(tr, s);
    PassLag(tr, mode, s, s, 0, map[], threads);
    PassOnly(tr, s, 0, map[], threads);
    var f := Pass(tr, s, false, 0, map[], threads).0;
    forall r: nat | r < |tr| && tr[r].read
      ensures tr[r].rf < |tr| && !ReadThreads(tr, f, false, r, threads, 0).1
              && (!f.cyclic ==> !ReadThreads(tr, f, false, r, threads, 0).0.cyclic)
    {
      var m := LastVisit(tr, mode, s, s, 0, map[], threads, r);
      ScanAgain(tr, mode, s, m, f, r, threads);
    }
    if !f.cyclic {
      AcyclicOrder(tr, s, threads);
    }
  }

  lemma LagStart(tr: ScTrace, mode: Mode, s: Vectors)
    requires AllSet(s) && |s.cvs| == |tr|
    ensures Lag(tr, mode, s, s, 0)
  {
  }

  lemma AcyclicOrder(tr: ScTrace, s: Vectors, threads: nat)
    requires Complete(tr, threads) && Regular(tr) && ReadsBack(tr) && AllSet(s) && |s.cvs| == |tr|
    requires var p := Pass(tr, s, false, 0, map[], threads);
             && !p.1 && !p.0.cyclic && AllSet(p.0)
             && forall r: nat {:trigger tr[r]} :: r < |tr| && tr[r].read ==>
                  tr[r].rf < |tr| && !ReadThreads(tr, p.0, false, r, threads, 0).1
                    && !ReadThreads(tr, p.0, false, r, threads, 0).0.cyclic
    ensures IsOrder(tr, Pass(tr, s, false, 0, map[], threads).0)
  {
    hide Pass, Complete, Backward, ReadThreads, Latest, Closed, Orders, RulesAt, Leq;
    NothingYet(tr, s);
    PassCloses(tr, s, 0, map[], threads);
    var f := Pass(tr, s, false, 0, map[], threads).0;
    forall b: nat, a: nat | Follows(tr, b, a)
      ensures Orders(tr, f, b, a)
    {
      FollowsDirect(tr, b, a);
      PassAccepts(tr, s, 0, map[], threads, b, a);
      ClosedOrders(tr, f, b, a);
    }
    forall x, y | 0 <= x < y < |tr| && tr[x].tid == tr[y].tid
      ensures Leq(f.cvs[x].value, f.cvs[y].value)
    {
      ThreadGrows(tr, f, x, y);
    }
    assert ThreadUp(tr, f);
    forall r: nat, w2: nat | Third(tr, r, w2)
      ensures RulesAt(tr, f, r, w2)
    {
      var _ := tr[r];
      ReadThreadsQuiet(tr, f, r, threads, 0);
      CompleteAt(tr, threads, w2);
    }
  }

  lemma ClosedOrders(tr: ScTrace, f: Vectors, b: nat, a: nat)
    requires Closed(tr, f, |tr|) && Direct(tr, b, a) && !f.cyclic && b < |f.cvs| && AllSet(f) && a < |tr|
             && !Since(f.cvs[b].value, tr[a].tid, a)
    ensures Orders(tr, f, b, a)
  {
    hide Direct;
    DirectIn(tr, b, a);
    assert Under(tr, f, b, a);
  }

  /** Passes until one counts no change leave nothing to find. */
  lemma {:induction false} ComputedFinds(tr: ScTrace, s: Vectors, first: bool, threads: nat, mode: Mode)
    requires Complete(tr, threads) && |s.cvs| == |tr| && Bounded(s, threads) && Regular(tr) && ReadsBack(tr)
    requires (Void(mode, s) || Mild(tr, mode, s)) && (mode.Late? || Apart(tr))
             && (!first ==> AllSet(s) && UpTo(tr, mode, s, |tr|))
    ensures var f := Computed(tr, s, first, threads);
            || Void(mode, f)
            || (&& (forall r: nat {:trigger tr[r]} ::
                      r < |tr| && tr[r].read ==> tr[r].rf < |tr| && !ReadThreads(tr, f, false, r, threads, 0).1)
                && Mild(tr, mode, f) && (!f.cyclic ==> IsOrder(tr, f)))
    decreases first, Slack(s.cvs, |tr|, threads)
  {
    hide Pass, Moved, Slack, Complete, Bounded, UpTo, Apart, Mild, Regular, ReadsBack, ReadThreads, IsOrder, Void;
    var p := Pass(tr, s, first, 0, map[], threads);
    PassGrows(tr, s, first, threads);
    RegularHas(tr);
    UpToNothing(tr, mode, s);
    PassUp(tr, s, first, 0, map[], threads, mode);
    UpToMild(tr, mode, p.0);
    if Void(mode, s) {
      VoidGrows(mode, s, p.0);
    }
    if p.1 {
      ComputedFinds(tr, p.0, false, threads, mode);
    } else {
      if first {
        PassSticky(tr, s, 0, map[], threads);
      }
      if !Void(mode, s) {
        LastPassFinds(tr, mode, s, threads);
      }
    }
  }

  lemma RegularHas(tr: ScTrace)
    requires Regular(tr)
    ensures Backward(tr) && Started(tr)
  {
  }

  lemma UpToNothing(tr: ScTrace, mode: Mode, s: Vectors)
    requires |s.cvs| == |tr| && (Void(mode, s) || Mild(tr, mode, s))
    ensures UpTo(tr, mode, s, 0) && Latest(tr, map[], 0)
  {
  }

  lemma UpToMild(tr: ScTrace, mode: Mode, s: Vectors)
    requires UpTo(tr, mode, s, |tr|)
    ensures Void(mode, s) || Mild(tr, mode, s)
  {
  }

  /** Before any choice nothing has been emitted. */
  lemma StartMild(tr: ScTrace)
    requires AllLate(tr)
    ensures Mild(tr, Late([], Unset(|tr|)), Unset(|tr|))
  {
  }

  /**
   * If all reads look back, and either every third write comes after its read in the trace, or no late third write
   * is reached from a write whose clock may still grow, then the passes reach a fixpoint; and if no cycle was met,
   * what they have found is all that the trace entails.
   */
  lemma TraceSettles(tr: ScTrace, threads: nat)
    requires Complete(tr, threads) && Regular(tr) && ReadsBack(tr) && (AllLate(tr) || Apart(tr))
    ensures var f := Computed(tr, Unset(|tr|), true, threads);
            && !Pass(tr, f, false, 0, map[], threads).1
            && (!f.cyclic ==> Settled(tr, f, threads) && IsOrder(tr, f))
  {
    hide Computed, Pass, Complete, Apart, AllLate, Regular, IsOrder, ReadThreads, Settled;
    var s := Unset(|tr|);
    RegularHas(tr);
    var mode := if AllLate(tr) then Late([], s) else Any;
    if AllLate(tr) {
      StartMild(tr);
    }
    ComputedFinds(tr, s, true, threads, mode);
    SettledExactlyIf(tr, s, threads);
    SettledExactly(tr, s, threads);
    ComputedCloses(tr, s, true, threads);
    var f := Computed(tr, s, true, threads);
    forall x: nat | x < |tr| && tr[x].read && tr[x].rf < |tr|
      ensures !ProcessRead(tr, f, x, threads).1
    {
      ReadFinds(tr, f, x, threads);
    }
  }

  lemma ReadFinds(tr: ScTrace, f: Vectors, r: nat, threads: nat)
    requires Closed(tr, f, |tr|) && r < |tr| && tr[r].read && tr[r].rf < r
             && !ReadThreads(tr, f, false, r, threads, 0).1
    ensures |f.cvs| == |tr| && AllSet(f) && !ProcessRead(tr, f, r, threads).1
  {
    hide ReadThreads, Merge, Direct, Closed, Alike;
    ClosedSet(tr, f, |tr|);
    var w := tr[r].rf;
    ReadDirect(tr, r);
    StillRefl(f);
    QuietMerge(tr, f, f, w, r);
    MergeSets(tr, f, r, w);
    var p := Merge(tr, f, r, w);
    StillSet(f, p.0);
    ReadThreadsEven(tr, f, p.0, false, r, threads, 0);
  }
}
