/**
 * Third writes that all come after their reads in the trace: merges then change no clock of an earlier action, at the
 * start and after every choice.
 */
module ScLate {
  import opened GraphTheory
  import opened Clocks
  import opened ScTheory
  import opened ScPasses
  import opened ScFixpoint
  import opened ScSolutions
  import opened ScSettled

  /** Every third write of what a read observes comes after the read in the trace. */
  ghost predicate AllLate(tr: ScTrace) {
    forall r: nat, w2: nat {:trigger Third(tr, r, w2)} :: Third(tr, r, w2) ==> r < w2
  }

  /** Nothing known of third writes; or all of them late, with the actions emitted and the clocks before the passes. */
  datatype Mode = Any | Late(done: seq<nat>, was: Vectors)

  /** Clocks name later actions only if those have been emitted. */
  ghost predicate Forward(tr: ScTrace, done: seq<nat>, s: Vectors) {
    forall x: nat, y: nat {:trigger Named(s, x, tr[y].tid, y)} ::
      x < y < |tr| && Named(s, x, tr[y].tid, y) ==> y in done
  }

  ghost predicate FrozenAt(was: Vectors, s: Vectors, x: nat) {
    && x < |was.cvs| == |s.cvs| && was.cvs[x].Some? && s.cvs[x].Some?
    && Leq(s.cvs[x].value, was.cvs[x].value)
  }

  /** The clocks of emitted actions do not grow. */
  ghost predicate Frozen(done: seq<nat>, was: Vectors, s: Vectors) {
    forall x {:trigger x in done} :: x in done ==> FrozenAt(was, s, x)
  }

  ghost predicate InClock(u: Vectors, b: nat, a: nat) {
    && b < |u.cvs| && a < |u.cvs| && u.cvs[b].Some? && u.cvs[a].Some?
    && Leq(u.cvs[b].value, u.cvs[a].value)
  }

  /** What an emitted action follows has been emitted, and is in its clock. */
  ghost predicate FirmDirect(tr: ScTrace, done: seq<nat>, u: Vectors) {
    forall b: nat, a: nat {:trigger Direct(tr, b, a)} :: Direct(tr, b, a) && a in done ==> b in done && InClock(u, b, a)
  }

  /** A third write that was emitted after the write that is read has the read before it. */
  ghost predicate FirmAfter(tr: ScTrace, done: seq<nat>, u: Vectors) {
    forall r: nat, w2: nat {:trigger Third(tr, r, w2)} ::
      Third(tr, r, w2) && w2 in done && Named(u, w2, tr[tr[r].rf].tid, tr[r].rf) ==> r in done && InClock(u, r, w2)
  }

  /** A third write emitted before the read is before the write that is read. */
  ghost predicate FirmBefore(tr: ScTrace, done: seq<nat>, u: Vectors) {
    forall r: nat, w2: nat {:trigger Third(tr, r, w2)} ::
      Third(tr, r, w2) && w2 in done && tr[r].rf in done && (r in done ==> Named(u, r, tr[w2].tid, w2)) ==>
        InClock(u, w2, tr[r].rf)
  }

  /** If that write is still to come, some action up to it in its thread is after the third write. */
  ghost predicate FirmLeft(tr: ScTrace, done: seq<nat>, u: Vectors) {
    forall r: nat, w2: nat {:trigger Third(tr, r, w2)} ::
      Third(tr, r, w2) && w2 in done && tr[r].rf !in done ==> LeftAfter(tr, u, w2, tr[r].rf)
  }

  ghost predicate LeftAfter(tr: ScTrace, u: Vectors, b: nat, w: nat) {
    exists z: nat :: z <= w < |tr| && tr[z].tid == tr[w].tid && InClock(u, b, z)
  }

  ghost predicate Firm(tr: ScTrace, done: seq<nat>, u: Vectors) {
    FirmDirect(tr, done, u) && FirmAfter(tr, done, u) && FirmBefore(tr, done, u) && FirmLeft(tr, done, u)
  }

  ghost predicate Mild(tr: ScTrace, mode: Mode, s: Vectors) {
    mode.Late? ==>
      && AllLate(tr) && Firm(tr, mode.done, mode.was) && Forward(tr, mode.done, s)
      && Frozen(mode.done, mode.was, s) && Grew(mode.was, s)
  }

  /** After a cycle nothing more is claimed of later choices. */
  ghost predicate Void(mode: Mode, s: Vectors) {
    mode.Late? && mode.done != [] && s.cyclic
  }

  lemma VoidGrows(mode: Mode, s: Vectors, s': Vectors)
    requires Grew(s, s') && Void(mode, s)
    ensures Void(mode, s')
  {
  }

  // ----- merges -----

  lemma JoinBelow(c: Clock, d: Clock, e: Clock)
    requires Leq(c, e) && Leq(d, e)
    ensures Leq(Join(c, d), e)
  {
    forall t: nat
      ensures At(Join(c, d), t) <= At(e, t)
    {
      assert At(c, t) <= At(e, t) && At(d, t) <= At(e, t);
    }
  }

  lemma LeqNamed(c: Clock, d: Clock, t: nat, y: nat)
    requires Leq(c, d) && Since(c, t, y)
    ensures Since(d, t, y)
  {
    assert At(c, t) <= At(d, t);
  }

  /** All that the clock of b names has been emitted. */
  ghost predicate NamesOnly(tr: ScTrace, done: seq<nat>, s: Vectors, b: nat) {
    forall y: nat {:trigger Named(s, b, tr[y].tid, y)} :: y < |tr| && Named(s, b, tr[y].tid, y) ==> y in done
  }

  /** A merge names what one of the two named. */
  lemma MergeForward(tr: ScTrace, done: seq<nat>, s: Vectors, a: nat, b: nat)
    requires a < |s.cvs| == |tr| && b < |tr| && s.cvs[a].Some? && Forward(tr, done, s)
    requires b < a || InClock(s, b, a) || NamesOnly(tr, done, s, b)
    ensures Forward(tr, done, Merge(tr, s, a, b).0)
  {
    hide Leq;
    var s' := Merge(tr, s, a, b).0;
    forall x: nat, y: nat | x < y < |tr| && Named(s', x, tr[y].tid, y)
      ensures y in done
    {
      if !Named(s, x, tr[y].tid, y) {
        assert x == a && Named(s, b, tr[y].tid, y);
        if a <= b && InClock(s, b, a) {
          LeqNamed(s.cvs[b].value, s.cvs[a].value, tr[y].tid, y);
        }
      }
    }
  }

  lemma MergeFrozen(tr: ScTrace, done: seq<nat>, was: Vectors, s: Vectors, a: nat, b: nat)
    requires a < |s.cvs| == |tr| && b < |tr| && s.cvs[a].Some? && Frozen(done, was, s)
    requires a in done && s.cvs[b].Some? ==> a < |was.cvs| && was.cvs[a].Some? && Leq(s.cvs[b].value, was.cvs[a].value)
    ensures Frozen(done, was, Merge(tr, s, a, b).0)
  {
    hide Leq;
    var s' := Merge(tr, s, a, b).0;
    forall x | x in done
      ensures FrozenAt(was, s', x)
    {
      assert FrozenAt(was, s, x);
      if x == a && s.cvs[b].Some? {
        JoinBelow(s.cvs[a].value, s.cvs[b].value, was.cvs[a].value);
      }
    }
  }

  lemma MergeMild(tr: ScTrace, mode: Mode, s: Vectors, a: nat, b: nat)
    requires a < |s.cvs| == |tr| && b < |tr| && s.cvs[a].Some? && Mild(tr, mode, s) && mode.Late?
             && (b < a || InClock(s, b, a))
    requires a in mode.done && s.cvs[b].Some? ==>
               a < |mode.was.cvs| && mode.was.cvs[a].Some? && Leq(s.cvs[b].value, mode.was.cvs[a].value)
    ensures Mild(tr, mode, Merge(tr, s, a, b).0)
  {
    hide Leq, Firm, AllLate, Forward, Frozen, Merge;
    MergeForward(tr, mode.done, s, a, b);
    MergeFrozen(tr, mode.done, mode.was, s, a, b);
    MergeStep(tr, s, a, b, 0);
    GrewTrans(mode.was, s, Merge(tr, s, a, b).0);
  }

  /** Merging what an action directly follows. */
  lemma DirectMild(tr: ScTrace, mode: Mode, s: Vectors, a: nat, b: nat)
    requires |s.cvs| == |tr| && Direct(tr, b, a) && a < |tr| && b < |tr| && s.cvs[a].Some? && Mild(tr, mode, s)
    ensures Mild(tr, mode, Merge(tr, s, a, b).0)
  {
    hide Merge, AllLate, Forward, Leq;
    if mode.Late? {
      if a in mode.done {
        assert b in mode.done && InClock(mode.was, b, a);
        assert FrozenAt(mode.was, s, b);
        LeqTrans(s.cvs[b].value, mode.was.cvs[b].value, mode.was.cvs[a].value);
      }
      assert b < a;
      MergeMild(tr, mode, s, a, b);
    }
  }

  /** A third write after the write that is read takes in the read. */
  lemma AfterMild(tr: ScTrace, mode: Mode, s: Vectors, r: nat, w2: nat)
    requires |s.cvs| == |tr| && Third(tr, r, w2) && Mild(tr, mode, s) && Named(s, w2, tr[tr[r].rf].tid, tr[r].rf)
    ensures Mild(tr, mode, Merge(tr, s, w2, r).0)
  {
    hide Merge, Forward, Leq;
    if mode.Late? {
      var w := tr[r].rf;
      if w2 in mode.done {
        assert FrozenAt(mode.was, s, w2);
        LeqNamed(s.cvs[w2].value, mode.was.cvs[w2].value, tr[w].tid, w);
        assert r in mode.done && InClock(mode.was, r, w2);
        assert FrozenAt(mode.was, s, r);
        LeqTrans(s.cvs[r].value, mode.was.cvs[r].value, mode.was.cvs[w2].value);
      }
      MergeMild(tr, mode, s, w2, r);
    }
  }

  /** The same clock, or one with the same entries. */
  ghost predicate SameClock(c: Option<Clock>, d: Option<Clock>) {
    c == d || (c.Some? && d.Some? && Even(c.value, d.value))
  }

  /** The third writes that the read names are in the clock of the write that is read. */
  ghost predicate ScanOk(tr: ScTrace, mode: Mode, s: Vectors, r: nat) {
    mode.Late? ==>
      forall w2: nat {:trigger Third(tr, r, w2)} ::
        Third(tr, r, w2) && Named(s, r, tr[w2].tid, w2) ==> InWrite(mode.was, s, w2, tr[r].rf)
  }

  ghost predicate InWrite(was: Vectors, s: Vectors, w2: nat, w: nat) {
    && w < |s.cvs| && s.cvs[w].Some? && w2 < |was.cvs| && was.cvs[w2].Some?
    && Leq(was.cvs[w2].value, s.cvs[w].value)
  }

  /** So merging such a write into the write that is read changes nothing. */
  lemma BeforeMild(tr: ScTrace, mode: Mode, s: Vectors, r: nat, w2: nat)
    requires |s.cvs| == |tr| && Third(tr, r, w2) && Mild(tr, mode, s) && mode.Late? && ScanOk(tr, mode, s, r)
             && Named(s, r, tr[w2].tid, w2)
    ensures s.cvs[tr[r].rf].Some?
    ensures var w := tr[r].rf;
            var s' := Merge(tr, s, w, w2).0;
            Mild(tr, mode, s') && forall x :: 0 <= x < |tr| ==> SameClock(s.cvs[x], s'.cvs[x])
  {
    hide Forward, Leq;
    var w := tr[r].rf;
    assert InWrite(mode.was, s, w2, w);
    assert w2 in mode.done by {
      assert r < w2;
      NamesDone(tr, mode.done, s, r, w2);
    }
    assert FrozenAt(mode.was, s, w2);
    LeqTrans(s.cvs[w2].value, mode.was.cvs[w2].value, s.cvs[w].value);
    if w in mode.done {
      assert FrozenAt(mode.was, s, w);
      LeqTrans(s.cvs[w2].value, s.cvs[w].value, mode.was.cvs[w].value);
    }
    MergeMild(tr, mode, s, w, w2);
    JoinEven(s.cvs[w].value, s.cvs[w2].value);
  }

  lemma NamesDone(tr: ScTrace, done: seq<nat>, s: Vectors, x: nat, y: nat)
    requires Forward(tr, done, s) && x < y < |tr| && Named(s, x, tr[y].tid, y)
    ensures y in done
  {
  }

  lemma JoinEven(c: Clock, d: Clock)
    requires Leq(d, c)
    ensures Even(c, Join(c, d))
  {
    forall t: nat
      ensures At(c, t) == At(Join(c, d), t)
    {
      assert At(d, t) <= At(c, t);
    }
  }

  /** A first clock names only its own action. */
  lemma ClockMild(tr: ScTrace, mode: Mode, s: Vectors, a: nat)
    requires a < |s.cvs| == |tr| && Mild(tr, mode, s)
    ensures Mild(tr, mode, WithClock(tr, s, a))
  {
    hide Leq, Firm, AllLate;
    var s' := WithClock(tr, s, a);
    if mode.Late? && s.cvs[a].None? {
      var c := Create([], tr[a].tid, a + 1);
      assert forall y: nat {:trigger tr[y]} :: a < y < |tr| ==> At(c, tr[y].tid) <= a + 1;
      forall x: nat, y: nat | x < y < |tr| && Named(s', x, tr[y].tid, y)
        ensures y in mode.done
      {
        assert x != a && Named(s, x, tr[y].tid, y);
      }
      forall x | x in mode.done
        ensures FrozenAt(mode.was, s', x)
      {
        assert FrozenAt(mode.was, s, x);
      }
    }
  }

  // ----- the scan at a read -----

  /** The ordering is in, or was refused. */
  ghost predicate In(tr: ScTrace, s: Vectors, b: nat, a: nat)
    requires a < |tr| == |s.cvs| && b < |tr|
  {
    && s.cvs[b].Some? && s.cvs[a].Some?
    && (Leq(s.cvs[b].value, s.cvs[a].value) || (s.cyclic && Since(s.cvs[b].value, tr[a].tid, a)))
  }

  /** In a thread, what the earlier clock has the later one has. */
  lemma {:induction false} ThreadIn(tr: ScTrace, s: Vectors, z: nat, w: nat, n: nat)
    requires |s.cvs| == |tr| && !s.cyclic && Started(tr) && z <= w < n <= |tr| && tr[z].tid == tr[w].tid
             && s.cvs[w].Some?
    requires forall b: nat, a: nat {:trigger Direct(tr, b, a)} :: Direct(tr, b, a) && a < n ==> In(tr, s, b, a)
    ensures InClock(s, z, w)
    decreases w
  {
    hide Leq;
    if z == w {
      LeqSelf(s.cvs[w].value);
    } else {
      assert !tr[w].start;
      var b := Predecessor(tr, z, w, w - 1);
      assert Direct(tr, b, w);
      assert In(tr, s, b, w);
      ThreadIn(tr, s, z, b, n);
      LeqTrans(s.cvs[z].value, s.cvs[b].value, s.cvs[w].value);
    }
  }

  lemma LeqSelf(c: Clock)
    ensures Leq(c, c)
  {
  }

  lemma ScanAt(tr: ScTrace, mode: Mode, s: Vectors, r: nat, w2: nat)
    requires |s.cvs| == |tr| && Mild(tr, mode, s) && mode.Late? && !Void(mode, s) && Started(tr)
    requires Third(tr, r, w2) && Named(s, r, tr[w2].tid, w2) && tr[r].rf < r && s.cvs[tr[r].rf].Some?
    requires forall b: nat, a: nat {:trigger Direct(tr, b, a)} :: Direct(tr, b, a) && a < r ==> In(tr, s, b, a)
    ensures InWrite(mode.was, s, w2, tr[r].rf)
  {
    hide Leq, Forward, Direct, Started;
    var w, was := tr[r].rf, mode.was;
    assert r < w2;
    NamesDone(tr, mode.done, s, r, w2);
    assert FrozenAt(was, s, w2);
    if w in mode.done {
      if r in mode.done {
        assert FrozenAt(was, s, r);
        LeqNamed(s.cvs[r].value, was.cvs[r].value, tr[w2].tid, w2);
      }
      assert InClock(was, w2, w);
      LeqTrans(was.cvs[w2].value, was.cvs[w].value, s.cvs[w].value);
    } else {
      assert LeftAfter(tr, was, w2, w);
      var z: nat :| z <= w < |tr| && tr[z].tid == tr[w].tid && InClock(was, w2, z);
      ThreadIn(tr, s, z, w, r);
      LeqTrans(was.cvs[w2].value, was.cvs[z].value, s.cvs[z].value);
      LeqTrans(was.cvs[w2].value, s.cvs[z].value, s.cvs[w].value);
    }
  }

  /** When a read is scanned, with all earlier orderings in, what it names is in the write that it reads. */
  lemma ScanStarts(tr: ScTrace, mode: Mode, s: Vectors, r: nat)
    requires |s.cvs| == |tr| && Mild(tr, mode, s) && !Void(mode, s) && Started(tr) && r < |tr|
             && tr[r].rf < r && s.cvs[tr[r].rf].Some?
    requires mode.Late? ==>
               forall b: nat, a: nat {:trigger Direct(tr, b, a)} :: Direct(tr, b, a) && a < r ==> In(tr, s, b, a)
    ensures ScanOk(tr, mode, s, r)
  {
    hide Mild, Direct, Started, In, InWrite, Void;
    if mode.Late? {
      forall w2: nat | Third(tr, r, w2) && Named(s, r, tr[w2].tid, w2)
        ensures InWrite(mode.was, s, w2, tr[r].rf)
      {
        ScanAt(tr, mode, s, r, w2);
      }
    }
  }
}
