/** Clock vectors for a sequentially consistent order: how one pass over the trace makes them grow. */
module ScTheory {
  import opened GraphTheory
  import opened Clocks

  /**
   * An action of a complete trace; action a has sequence number a + 1. A read observes rf, a thread's
   * first action follows its creation, a join follows the joined thread's last action, and hb is its
   * happens-before clock.
   */
  datatype ScAction = ScAction(tid: nat, read: bool, write: bool, loc: nat, rf: nat, start: bool,
                               creation: Option<nat>, join: Option<nat>, hb: Clock)

  type ScTrace = seq<ScAction>

  predicate Complete(tr: ScTrace, threads: nat) {
    && (forall a {:trigger tr[a].tid} :: 0 <= a < |tr| ==> tr[a].tid < threads)
    && (forall a {:trigger tr[a].rf} ::
          0 <= a < |tr| && tr[a].read ==> tr[a].rf < |tr| && tr[tr[a].rf].write && tr[tr[a].rf].loc == tr[a].loc)
    && (forall a {:trigger tr[a].creation} :: 0 <= a < |tr| && tr[a].creation.Some? ==> tr[a].creation.value < |tr|)
    && (forall a {:trigger tr[a].join} :: 0 <= a < |tr| && tr[a].join.Some? ==> tr[a].join.value < |tr|)
  }

  /** The clocks computed so far, and whether a cycle was met. */
  datatype Vectors = Vectors(cvs: seq<Option<Clock>>, cyclic: bool)

  predicate Since(c: Clock, tid: nat, a: nat) {
    At(c, tid) >= a + 1
  }

  /** Whether some entry of d is larger than that of c. */
  predicate Exceeds(d: Clock, c: Clock) {
    exists t :: 0 <= t < |d| && At(c, t) < d[t]
  }

  /** Act comes after act2: its clock takes in the other, unless that would close a cycle. */
  function Merge(tr: ScTrace, s: Vectors, act: nat, act2: nat): (r: (Vectors, bool))
    requires act < |s.cvs| == |tr| && act2 < |tr| && s.cvs[act].Some?
  {
    match s.cvs[act2]
    case None => (s, true)
    case Some(cv2) =>
      if Since(cv2, tr[act].tid, act) then (s.(cyclic := true), false)
      else (s.(cvs := s.cvs[act := Some(Join(s.cvs[act].value, cv2))]), Exceeds(cv2, s.cvs[act].value))
  }

  // ----- growth -----

  ghost predicate Leq(c: Clock, d: Clock) {
    forall t: nat {:trigger At(c, t)} {:trigger At(d, t)} :: At(c, t) <= At(d, t)
  }

  /** Clocks are only set or enlarged. */
  ghost predicate Grew(s: Vectors, s': Vectors) {
    && |s'.cvs| == |s.cvs| && (s.cyclic ==> s'.cyclic)
    && forall a {:trigger s'.cvs[a]} {:trigger s.cvs[a]} ::
         0 <= a < |s.cvs| && s.cvs[a].Some? ==> s'.cvs[a].Some? && Leq(s.cvs[a].value, s'.cvs[a].value)
  }

  /** The clock of a is set and names x of thread t. */
  ghost predicate Named(s: Vectors, a: nat, t: nat, x: nat) {
    a < |s.cvs| && s.cvs[a].Some? && Since(s.cvs[a].value, t, x)
  }

  /** Some entry became larger. */
  ghost predicate Moved(s: Vectors, s': Vectors) {
    |s'.cvs| == |s.cvs|
      && exists a :: 0 <= a < |s.cvs| && s.cvs[a].Some? && s'.cvs[a].Some? && Exceeds(s'.cvs[a].value, s.cvs[a].value)
  }

  ghost predicate AllSet(s: Vectors) {
    forall a {:trigger s.cvs[a]} :: 0 <= a < |s.cvs| ==> s.cvs[a].Some?
  }

  /** Entries are sequence numbers of the trace, for its threads. */
  ghost predicate Bounded(s: Vectors, threads: nat) {
    forall a {:trigger s.cvs[a]} ::
      0 <= a < |s.cvs| && s.cvs[a].Some? ==> ClockBounded(s.cvs[a].value, |s.cvs|, threads)
  }

  ghost predicate ClockBounded(c: Clock, n: nat, threads: nat) {
    forall t: nat {:trigger At(c, t)} :: At(c, t) <= n && (t >= threads ==> At(c, t) == 0)
  }

  /** What a step that may grow the clocks promises; its flag means growth once all clocks are set. */
  ghost predicate Step(s: Vectors, r: (Vectors, bool), threads: nat) {
    && Grew(s, r.0) && (Bounded(s, threads) ==> Bounded(r.0, threads))
    && (r.1 && AllSet(s) ==> Moved(s, r.0))
  }

  lemma GrewRefl(s: Vectors)
    ensures Grew(s, s)
  {
  }

  lemma GrewTrans(s: Vectors, t: Vectors, u: Vectors)
    requires Grew(s, t) && Grew(t, u)
    ensures Grew(s, u)
  {
    forall a | 0 <= a < |s.cvs| && s.cvs[a].Some?
      ensures u.cvs[a].Some? && Leq(s.cvs[a].value, u.cvs[a].value)
    {
      var x, y, z := s.cvs[a].value, t.cvs[a].value, u.cvs[a].value;
      forall k: nat
        ensures At(x, k) <= At(z, k)
      {
        assert At(x, k) <= At(y, k) && At(y, k) <= At(z, k);
      }
    }
  }

  lemma ExceedsAt(d: Clock, c: Clock)
    ensures Exceeds(d, c) <==> exists t: nat :: At(c, t) < At(d, t)
  {
    if t: nat :| At(c, t) < At(d, t) {
      assert At(c, t) < d[t];
    }
    if Exceeds(d, c) {
      var t :| 0 <= t < |d| && At(c, t) < d[t];
      assert At(c, t) < At(d, t);
    }
  }

  lemma MovedTrans(s: Vectors, t: Vectors, u: Vectors)
    requires Grew(s, t) && Grew(t, u) && AllSet(s) && (Moved(s, t) || Moved(t, u))
    ensures Moved(s, u)
  {
    GrewTrans(s, t, u);
    if Moved(s, t) {
      var a :| 0 <= a < |s.cvs| && s.cvs[a].Some? && t.cvs[a].Some? && Exceeds(t.cvs[a].value, s.cvs[a].value);
      var x, y, z := s.cvs[a].value, t.cvs[a].value, u.cvs[a].value;
      ExceedsAt(y, x);
      ExceedsAt(z, x);
      var k: nat :| At(x, k) < At(y, k);
      assert At(y, k) <= At(z, k);
    } else {
      var a :| 0 <= a < |t.cvs| && t.cvs[a].Some? && u.cvs[a].Some? && Exceeds(u.cvs[a].value, t.cvs[a].value);
      var x, y, z := s.cvs[a].value, t.cvs[a].value, u.cvs[a].value;
      ExceedsAt(z, y);
      ExceedsAt(z, x);
      var k: nat :| At(y, k) < At(z, k);
      assert At(x, k) <= At(y, k);
    }
  }

  lemma MergeStep(tr: ScTrace, s: Vectors, act: nat, act2: nat, threads: nat)
    requires act < |s.cvs| == |tr| && act2 < |tr| && s.cvs[act].Some?
    ensures Step(s, Merge(tr, s, act, act2), threads)
  {
    var r := Merge(tr, s, act, act2);
    if s.cvs[act2].Some? && !Since(s.cvs[act2].value, tr[act].tid, act) {
      var c, d := s.cvs[act].value, s.cvs[act2].value;
      assert r.0.cvs[act] == Some(Join(c, d));
      if Exceeds(d, c) {
        ExceedsAt(d, c);
        var k: nat :| At(c, k) < At(d, k);
        ExceedsAt(Join(c, d), c);
        assert At(c, k) < At(Join(c, d), k);
      }
    }
  }

  /** Two steps one after the other, with the flags joined. */
  lemma StepThen(s: Vectors, p: (Vectors, bool), q: (Vectors, bool), flag: bool, threads: nat)
    requires Step(s, p, threads) && Step(p.0, q, threads) && (flag ==> p.1 || q.1)
    ensures Step(s, (q.0, flag), threads)
  {
    hide Moved, Bounded;
    GrewTrans(s, p.0, q.0);
    if flag && AllSet(s) {
      assert AllSet(p.0);
      MovedTrans(s, p.0, q.0);
    }
  }

  lemma NoStep(s: Vectors, threads: nat)
    ensures Step(s, (s, false), threads)
  {
    GrewRefl(s);
  }
}
