/** The passes over the trace that compute the clocks, and why they come to an end. */
module ScPasses {
  import opened GraphTheory
  import opened Clocks
  import opened ScTheory

  /** The actions of a thread on a location, in trace order. */
  function OnObject(tr: ScTrace, loc: nat, t: nat, n: nat): (l: seq<nat>)
    requires n <= |tr|
    ensures forall k {:trigger l[k]} :: 0 <= k < |l| ==> l[k] < n && tr[l[k]].tid == t && tr[l[k]].loc == loc
  {
    if n == 0 then []
    else
      var l := OnObject(tr, loc, t, n - 1);
      if tr[n - 1].tid == t && tr[n - 1].loc == loc then l + [n - 1] else l
  }

  ghost predicate Listed(tr: ScTrace, l: seq<nat>) {
    forall k {:trigger l[k]} :: 0 <= k < |l| ==> l[k] < |tr|
  }

  /** Another thread's writes of the read's location, newest first: those after what is read come after the read. */
  function ReadBack(tr: ScTrace, s: Vectors, changed: bool, r: nat, l: seq<nat>, k: nat): (p: (Vectors, bool))
    requires |s.cvs| == |tr| && r < |tr| && s.cvs[r].Some? && tr[r].rf < |tr| && k <= |l| && Listed(tr, l)
    ensures |p.0.cvs| == |tr|
    decreases k
  {
    if k == 0 then (s, changed)
    else
      var w2, w := l[k - 1], tr[r].rf;
      if !tr[w2].write || s.cvs[w2].None? then ReadBack(tr, s, changed, r, l, k - 1)
      else
        var p := if Since(s.cvs[w2].value, tr[w].tid, w) then Merge(tr, s, w2, r) else (s, false);
        MergeSets(tr, s, w2, r);
        if Since(p.0.cvs[r].value, tr[w2].tid, w2) then
          var q := if p.0.cvs[w].None? then (p.0, true) else Merge(tr, p.0, w, w2);
          (q.0, changed || p.1 || q.1)
        else ReadBack(tr, p.0, changed || p.1, r, l, k - 1)
  }

  /** The same clocks are set. */
  ghost predicate SameSet(s: Vectors, s': Vectors) {
    |s'.cvs| == |s.cvs|
      && forall x {:trigger s'.cvs[x]} {:trigger s.cvs[x]} :: 0 <= x < |s.cvs| ==> (s'.cvs[x].Some? <==> s.cvs[x].Some?)
  }

  /** Merging leaves set clocks set. */
  lemma MergeSets(tr: ScTrace, s: Vectors, a: nat, b: nat)
    requires a < |s.cvs| == |tr| && b < |tr| && s.cvs[a].Some?
    ensures SameSet(s, Merge(tr, s, a, b).0)
  {
  }

  lemma {:induction false} ReadBackStep(tr: ScTrace, s: Vectors, changed: bool, r: nat, l: seq<nat>, k: nat,
                                        s0: Vectors, threads: nat)
    requires |s.cvs| == |tr| && r < |tr| && s.cvs[r].Some? && tr[r].rf < |tr| && k <= |l| && Listed(tr, l)
    requires Step(s0, (s, changed), threads)
    ensures Step(s0, ReadBack(tr, s, changed, r, l, k), threads)
    decreases k
  {
    hide Step, Merge;
    if k > 0 {
      var w2, w := l[k - 1], tr[r].rf;
      if !tr[w2].write || s.cvs[w2].None? {
        ReadBackStep(tr, s, changed, r, l, k - 1, s0, threads);
      } else {
        var p := if Since(s.cvs[w2].value, tr[w].tid, w) then Merge(tr, s, w2, r) else (s, false);
        MergeSets(tr, s, w2, r);
        MergeStep(tr, s, w2, r, threads);
        NoStep(s, threads);
        StepThen(s0, (s, changed), p, changed || p.1, threads);
        if Since(p.0.cvs[r].value, tr[w2].tid, w2) {
          if p.0.cvs[w].None? {
            UnsetStep(p.0, w, threads);
            StepThen(s0, (p.0, changed || p.1), (p.0, true), true, threads);
          } else {
            MergeStep(tr, p.0, w, w2, threads);
            var q := Merge(tr, p.0, w, w2);
            StepThen(s0, (p.0, changed || p.1), q, changed || p.1 || q.1, threads);
          }
        } else {
          ReadBackStep(tr, p.0, changed || p.1, r, l, k - 1, s0, threads);
        }
      }
    }
  }

  /** As long as a clock is missing, the flag promises nothing. */
  lemma UnsetStep(s: Vectors, w: nat, threads: nat)
    requires w < |s.cvs| && s.cvs[w].None?
    ensures Step(s, (s, true), threads)
  {
    GrewRefl(s);
    assert !AllSet(s);
  }

  function ReadThreads(tr: ScTrace, s: Vectors, changed: bool, r: nat, threads: nat, t: nat): (p: (Vectors, bool))
    requires |s.cvs| == |tr| && r < |tr| && s.cvs[r].Some? && tr[r].rf < |tr| && t <= threads
    ensures |p.0.cvs| == |tr|
    decreases threads - t
  {
    if t == threads then (s, changed)
    else if t == tr[r].tid || t == tr[tr[r].rf].tid then ReadThreads(tr, s, changed, r, threads, t + 1)
    else
      var l := OnObject(tr, tr[r].loc, t, |tr|);
      var p := ReadBack(tr, s, changed, r, l, |l|);
      ReadBackSets(tr, s, changed, r, l, |l|);
      ReadThreads(tr, p.0, p.1, r, threads, t + 1)
  }

  lemma {:induction false} ReadBackSets(tr: ScTrace, s: Vectors, changed: bool, r: nat, l: seq<nat>, k: nat)
    requires |s.cvs| == |tr| && r < |tr| && s.cvs[r].Some? && tr[r].rf < |tr| && k <= |l| && Listed(tr, l)
    ensures SameSet(s, ReadBack(tr, s, changed, r, l, k).0)
    decreases k
  {
    hide Merge;
    if k > 0 {
      var w2, w := l[k - 1], tr[r].rf;
      if !tr[w2].write || s.cvs[w2].None? {
        ReadBackSets(tr, s, changed, r, l, k - 1);
      } else {
        var p := if Since(s.cvs[w2].value, tr[w].tid, w) then Merge(tr, s, w2, r) else (s, false);
        MergeSets(tr, s, w2, r);
        if Since(p.0.cvs[r].value, tr[w2].tid, w2) {
          if p.0.cvs[w].Some? {
            MergeSets(tr, p.0, w, w2);
          }
        } else {
          ReadBackSets(tr, p.0, changed || p.1, r, l, k - 1);
        }
      }
    }
  }

  lemma {:induction false} ReadThreadsStep(tr: ScTrace, s: Vectors, changed: bool, r: nat, threads: nat, t: nat,
                                           s0: Vectors)
    requires |s.cvs| == |tr| && r < |tr| && s.cvs[r].Some? && tr[r].rf < |tr| && t <= threads
             && Step(s0, (s, changed), threads)
    ensures Step(s0, ReadThreads(tr, s, changed, r, threads, t), threads)
    ensures SameSet(s, ReadThreads(tr, s, changed, r, threads, t).0)
    decreases threads - t
  {
    hide Step, ReadBack;
    if t < threads {
      if t == tr[r].tid || t == tr[tr[r].rf].tid {
        ReadThreadsStep(tr, s, changed, r, threads, t + 1, s0);
      } else {
        var l := OnObject(tr, tr[r].loc, t, |tr|);
        var p := ReadBack(tr, s, changed, r, l, |l|);
        ReadBackSets(tr, s, changed, r, l, |l|);
        ReadBackStep(tr, s, changed, r, l, |l|, s0, threads);
        ReadThreadsStep(tr, p.0, p.1, r, threads, t + 1, s0);
      }
    }
  }

  /** A read comes after the write it observes, and the other writes of its location before or after both. */
  function ProcessRead(tr: ScTrace, s: Vectors, r: nat, threads: nat): (p: (Vectors, bool))
    requires |s.cvs| == |tr| && r < |tr| && s.cvs[r].Some? && tr[r].rf < |tr|
    ensures |p.0.cvs| == |tr|
  {
    var p := Merge(tr, s, r, tr[r].rf);
    MergeSets(tr, s, r, tr[r].rf);
    ReadThreads(tr, p.0, p.1 && r < tr[r].rf, r, threads, 0)
  }

  lemma ProcessReadStep(tr: ScTrace, s: Vectors, r: nat, threads: nat)
    requires |s.cvs| == |tr| && r < |tr| && s.cvs[r].Some? && tr[r].rf < |tr|
    ensures Step(s, ProcessRead(tr, s, r, threads), threads)
    ensures SameSet(s, ProcessRead(tr, s, r, threads).0)
  {
    hide Step, ReadThreads, Merge;
    var p := Merge(tr, s, r, tr[r].rf);
    MergeSets(tr, s, r, tr[r].rf);
    MergeStep(tr, s, r, tr[r].rf, threads);
    StepLess(s, p, p.1 && r < tr[r].rf, threads);
    ReadThreadsStep(tr, p.0, p.1 && r < tr[r].rf, r, threads, 0, s);
  }

  lemma StepLess(s: Vectors, p: (Vectors, bool), flag: bool, threads: nat)
    requires Step(s, p, threads) && (flag ==> p.1)
    ensures Step(s, (p.0, flag), threads)
  {
  }

  // ----- one pass -----

  function LastAct(tr: ScTrace, last: map<nat, nat>, a: nat): Option<nat>
    requires a < |tr|
  {
    if tr[a].start then tr[a].creation else if tr[a].tid in last then Some(last[tr[a].tid]) else None
  }

  function WithClock(tr: ScTrace, s: Vectors, a: nat): Vectors
    requires a < |s.cvs| == |tr|
  {
    if s.cvs[a].None? then s.(cvs := s.cvs[a := Some(Create([], tr[a].tid, a + 1))]) else s
  }

  /** One action of a pass: after its predecessor, after a joined thread, and as a read. */
  function Visit(tr: ScTrace, s: Vectors, changed: bool, a: nat, last: Option<nat>, threads: nat): (p: (Vectors, bool))
    requires Complete(tr, threads) && a < |s.cvs| == |tr| && (last.Some? ==> last.value < |tr|)
    ensures |p.0.cvs| == |tr|
  {
    var s0 := WithClock(tr, s, a);
    var s1 := if last.Some? then Merge(tr, s0, a, last.value).0 else s0;
    var p2 := if tr[a].join.Some? then (MergeKeeps(tr, s0, a, last); Merge(tr, s1, a, tr[a].join.value))
      else (s1, false);
    MergeKeeps(tr, s0, a, last);
    MergeKeeps(tr, s1, a, tr[a].join);
    var p3 := if tr[a].read then ProcessRead(tr, p2.0, a, threads) else (p2.0, false);
    (p3.0, changed || p2.1 || p3.1)
  }

  lemma MergeKeeps(tr: ScTrace, s: Vectors, a: nat, b: Option<nat>)
    requires a < |s.cvs| == |tr| && s.cvs[a].Some? && (b.Some? ==> b.value < |tr|)
    ensures b.Some? ==> SameSet(s, Merge(tr, s, a, b.value).0)
  {
  }

  function Pass(tr: ScTrace, s: Vectors, changed: bool, a: nat, last: map<nat, nat>, threads: nat): (p: (Vectors, bool))
    requires Complete(tr, threads) && a <= |s.cvs| == |tr| && LastOk(tr, last)
    ensures |p.0.cvs| == |tr|
    decreases |tr| - a
  {
    if a == |tr| then (s, changed)
    else
      var p := Visit(tr, s, changed, a, LastAct(tr, last, a), threads);
      Pass(tr, p.0, p.1, a + 1, last[tr[a].tid := a], threads)
  }

  ghost predicate LastOk(tr: ScTrace, last: map<nat, nat>) {
    forall t {:trigger last[t]} :: t in last ==> last[t] < |tr|
  }

  lemma VisitStep(tr: ScTrace, s: Vectors, changed: bool, a: nat, last: Option<nat>, threads: nat, s0: Vectors)
    requires Complete(tr, threads) && a < |s.cvs| == |tr| && (last.Some? ==> last.value < |tr|)
             && Step(s0, (s, changed), threads)
    ensures Step(s0, Visit(tr, s, changed, a, last, threads), threads)
    ensures SameSet(WithClock(tr, s, a), Visit(tr, s, changed, a, last, threads).0)
  {
    hide Step, ProcessRead, Merge, Complete;
    var v0 := WithClock(tr, s, a);
    WithClockStep(tr, s, a, threads);
    StepThen(s0, (s, changed), (v0, false), changed, threads);
    var v1 := if last.Some? then Merge(tr, v0, a, last.value).0 else v0;
    MergeKeeps(tr, v0, a, last);
    NoStep(v0, threads);
    if last.Some? {
      MergeStep(tr, v0, a, last.value, threads);
      StepLess(v0, Merge(tr, v0, a, last.value), false, threads);
    }
    StepThen(s0, (v0, changed), (v1, false), changed, threads);
    CompleteAt(tr, threads, a);
    MergeKeeps(tr, v1, a, tr[a].join);
    var p2 := if tr[a].join.Some? then Merge(tr, v1, a, tr[a].join.value) else (v1, false);
    NoStep(v1, threads);
    if tr[a].join.Some? {
      MergeStep(tr, v1, a, tr[a].join.value, threads);
    }
    StepThen(s0, (v1, changed), p2, changed || p2.1, threads);
    if tr[a].read {
      ProcessReadStep(tr, p2.0, a, threads);
      var p3 := ProcessRead(tr, p2.0, a, threads);
      StepThen(s0, (p2.0, changed || p2.1), p3, changed || p2.1 || p3.1, threads);
    }
  }

  lemma CompleteAt(tr: ScTrace, threads: nat, a: nat)
    requires Complete(tr, threads) && a < |tr|
    ensures tr[a].tid < threads && (tr[a].read ==> tr[a].rf < |tr|) && (tr[a].join.Some? ==> tr[a].join.value < |tr|)
    ensures tr[a].creation.Some? ==> tr[a].creation.value < |tr|
  {
  }

  lemma WithClockStep(tr: ScTrace, s: Vectors, a: nat, threads: nat)
    requires Complete(tr, threads) && a < |s.cvs| == |tr|
    ensures Step(s, (WithClock(tr, s, a), false), threads)
  {
    CompleteAt(tr, threads, a);
    GrewRefl(s);
  }

  lemma {:induction false} PassStep(tr: ScTrace, s: Vectors, changed: bool, a: nat,
                                    last: map<nat, nat>, threads: nat, s0: Vectors)
    requires Complete(tr, threads) && a <= |s.cvs| == |tr| && LastOk(tr, last) && Step(s0, (s, changed), threads)
    requires forall x {:trigger s.cvs[x]} :: 0 <= x < a ==> s.cvs[x].Some?
    ensures Step(s0, Pass(tr, s, changed, a, last, threads), threads)
            && AllSet(Pass(tr, s, changed, a, last, threads).0)
    decreases |tr| - a
  {
    hide Step, Visit;
    if a < |tr| {
      CompleteAt(tr, threads, a);
      var p := Visit(tr, s, changed, a, LastAct(tr, last, a), threads);
      VisitStep(tr, s, changed, a, LastAct(tr, last, a), threads, s0);
      PassStep(tr, p.0, p.1, a + 1, last[tr[a].tid := a], threads, s0);
    }
  }

  // ----- the room that is left -----

  function ClockSlack(c: Clock, n: nat, threads: nat): (r: nat)
    decreases threads
  {
    if threads == 0 then 0 else ClockSlack(c, n,
                                           threads - 1) + (if At(c, threads - 1) <= n then n - At(c, threads - 1)
                                                           else 0)
  }

  function Slack(cvs: seq<Option<Clock>>, n: nat, threads: nat): (r: nat)
    decreases |cvs|
  {
    if cvs == [] then 0
    else
      var c := cvs[|cvs| - 1];
      Slack(cvs[..|cvs| - 1], n, threads) + (if c.Some? then ClockSlack(c.value, n, threads) else 0)
  }

  lemma {:induction false} ClockSlackLess(c: Clock, d: Clock, n: nat, threads: nat, k: nat)
    requires Leq(c, d) && forall t: nat {:trigger At(d, t)} :: At(d, t) <= n
    ensures ClockSlack(d, n, threads) <= ClockSlack(c, n, threads)
    ensures k < threads && At(c, k) < At(d, k) ==> ClockSlack(d, n, threads) < ClockSlack(c, n, threads)
    decreases threads
  {
    if threads > 0 {
      ClockSlackLess(c, d, n, threads - 1, k);
      assert At(c, threads - 1) <= At(d, threads - 1) <= n;
    }
  }

  lemma {:induction false} SlackLess(cvs: seq<Option<Clock>>, dvs: seq<Option<Clock>>, n: nat, threads: nat, a: nat)
    requires |cvs| == |dvs|
             && forall x {:trigger dvs[x]} {:trigger cvs[x]} ::
                  0 <= x < |cvs| ==> cvs[x].Some? && dvs[x].Some? && Leq(cvs[x].value, dvs[x].value)
    requires forall x {:trigger dvs[x]} :: 0 <= x < |cvs| ==> ClockBounded(dvs[x].value, n, threads)
    ensures Slack(dvs, n, threads) <= Slack(cvs, n, threads)
    ensures a < |cvs| && Exceeds(dvs[a].value, cvs[a].value) ==> Slack(dvs, n, threads) < Slack(cvs, n, threads)
    decreases |cvs|
  {
    if cvs != [] {
      var m := |cvs| - 1;
      SlackLess(cvs[..m], dvs[..m], n, threads, a);
      var c, d := cvs[m].value, dvs[m].value;
      var k: nat := 0;
      if a == m && Exceeds(d, c) {
        ExceedsAt(d, c);
        k :| At(c, k) < At(d, k);
      }
      ClockSlackLess(c, d, n, threads, k);
    }
  }

  /** Growth uses up room. */
  lemma MovedSlack(s: Vectors, s': Vectors, threads: nat)
    requires Grew(s, s') && AllSet(s) && Bounded(s', threads) && Moved(s, s')
    ensures Slack(s'.cvs, |s.cvs|, threads) < Slack(s.cvs, |s.cvs|, threads)
  {
    var a :| 0 <= a < |s.cvs| && s.cvs[a].Some? && s'.cvs[a].Some? && Exceeds(s'.cvs[a].value, s.cvs[a].value);
    SlackLess(s.cvs, s'.cvs, |s.cvs|, threads, a);
  }

  /** Passes until one changes nothing that counts; the first always counts as a change. */
  function Computed(tr: ScTrace, s: Vectors, first: bool, threads: nat): (r: Vectors)
    requires Complete(tr, threads) && |s.cvs| == |tr| && Bounded(s, threads) && (!first ==> AllSet(s))
    ensures |r.cvs| == |tr| && AllSet(r) && Bounded(r, threads) && Grew(s, r)
    decreases first, Slack(s.cvs, |tr|, threads)
  {
    hide Pass, Moved, Slack;
    var p := Pass(tr, s, first, 0, map[], threads);
    PassGrows(tr, s, first, threads);
    if p.1 then
      var r := Computed(tr, p.0, false, threads);
      GrewTrans(s, p.0, r);
      r
    else p.0
  }

  lemma PassGrows(tr: ScTrace, s: Vectors, first: bool, threads: nat)
    requires Complete(tr, threads) && |s.cvs| == |tr| && Bounded(s, threads) && (!first ==> AllSet(s))
    ensures var p := Pass(tr, s, first, 0, map[], threads);
            && Grew(s, p.0) && AllSet(p.0) && Bounded(p.0, threads)
            && (!first && p.1 ==> Slack(p.0.cvs, |tr|, threads) < Slack(s.cvs, |tr|, threads))
  {
    hide Pass, Moved, Slack;
    var p := Pass(tr, s, first, 0, map[], threads);
    NoStep(s, threads);
    if first {
      FirstStep(tr, s, threads);
    } else {
      PassStep(tr, s, false, 0, map[], threads, s);
      if p.1 {
        MovedSlack(s, p.0, threads);
      }
    }
  }

  /** The first pass, whose flag is up from the start. */
  lemma FirstStep(tr: ScTrace, s: Vectors, threads: nat)
    requires Complete(tr, threads) && |s.cvs| == |tr| && Bounded(s, threads)
    ensures var p := Pass(tr, s, true, 0, map[], threads); Grew(s, p.0) && AllSet(p.0) && Bounded(p.0, threads)
  {
    NoStep(s, threads);
    PassStep(tr, s, false, 0, map[], threads, s);
    PassFlag(tr, s, 0, map[], threads);
  }

  /** The flag does not influence the clocks. */
  lemma {:induction false} PassFlag(tr: ScTrace, s: Vectors, a: nat, last: map<nat, nat>, threads: nat)
    requires Complete(tr, threads) && a <= |s.cvs| == |tr| && LastOk(tr, last)
    ensures Pass(tr, s, true, a, last, threads).0 == Pass(tr, s, false, a, last, threads).0
    decreases |tr| - a
  {
    hide ProcessRead, Merge, Complete;
    if a < |tr| {
      CompleteAt(tr, threads, a);
      var p := Visit(tr, s, true, a, LastAct(tr, last, a), threads);
      var q := Visit(tr, s, false, a, LastAct(tr, last, a), threads);
      assert p.0 == q.0 && p.1;
      PassFlag(tr, p.0, a + 1, last[tr[a].tid := a], threads);
    }
  }
}
