/** A trace on which the passes stop before all orderings are in, and one like it on which they do not. */
module ScUnsettled {
  import opened GraphTheory
  import opened Clocks
  import opened ScTheory
  import opened ScPasses
  import opened ScGeneration
  import opened ScFixpoint
  import opened ScSolutions
  import opened ScSettled
  import opened ScLate
  import opened ScTraces

  function Write(tid: nat, loc: nat): ScAction {
    ScAction(tid, false, true, loc, 0, false, None, None, [])
  }

  function Read(tid: nat, loc: nat, rf: nat): ScAction {
    ScAction(tid, true, false, loc, rf, false, None, None, [])
  }

  function Begin(tid: nat, creation: Option<nat>): ScAction {
    ScAction(tid, false, false, 2, 0, true, creation, None, [])
  }

  function Spawn(tid: nat): ScAction {
    ScAction(tid, false, false, 2, 0, false, None, None, [])
  }

  /**
   * Thread 0 starts threads 1 and 2, writes x and y, and starts thread 3. Thread 1 writes y and x, thread 2 reads x
   * from thread 0, and thread 3 reads y: from thread 1 if rf is 7, from thread 0 if it is 6. In the first case thread
   * 1's write of y comes after thread 0's, so does its write of x, and the read of x comes before that write.
   */
  function Sample(rf: nat): (tr: ScTrace)
    ensures |tr| == 13
  {
    [Begin(0, None), Spawn(0), Begin(1, Some(1)), Spawn(0), Begin(2, Some(3)), Write(0, 0), Write(0, 1),
     Write(1, 1), Read(2, 0, 5), Write(1, 0), Spawn(0), Begin(3, Some(10)), Read(3, 1, rf)]
  }

  lemma SampleAt(rf: nat, a: nat)
    requires a < 13 && (rf == 6 || rf == 7)
    ensures var x := Sample(rf)[a];
            && x.tid < 4 && x.join.None? && (x.creation.Some? ==> x.start && x.creation.value < a)
            && (x.start <==> a == 0 || a == 2 || a == 4 || a == 11)
            && (x.read ==> (a == 8 && x.rf == 5 && x.loc == 0) || (a == 12 && x.rf == rf && x.loc == 1))
            && (x.tid == 1 ==> a == 2 || a == 7 || a == 9) && (x.tid == 2 ==> a == 4 || a == 8)
            && (x.tid == 3 ==> a >= 11)
  {
  }

  lemma SampleComplete(rf: nat)
    requires rf == 6 || rf == 7
    ensures Complete(Sample(rf), 4)
  {
    var tr := Sample(rf);
    assert tr[5] == Write(0, 0) && tr[6] == Write(0, 1) && tr[7] == Write(1, 1);
    forall a | 0 <= a < |tr|
      ensures tr[a].tid < 4 && tr[a].join.None? && (tr[a].creation.Some? ==> tr[a].creation.value < |tr|)
      ensures tr[a].read ==> tr[a].rf < |tr| && tr[tr[a].rf].write && tr[tr[a].rf].loc == tr[a].loc
    {
      SampleAt(rf, a);
    }
  }

  /** It is a trace as the checker makes it, and all reads look back. */
  lemma SampleRegular(rf: nat)
    requires rf == 6 || rf == 7
    ensures Regular(Sample(rf)) && ReadsBack(Sample(rf))
  {
    var tr := Sample(rf);
    forall a | 0 <= a < |tr|
      ensures (tr[a].creation.Some? ==> tr[a].creation.value < a) && tr[a].join.None? && (tr[a].read ==> tr[a].rf < a)
    {
      SampleAt(rf, a);
    }
    forall b, a | 0 <= b < a < |tr| && tr[a].start
      ensures tr[b].tid != tr[a].tid
    {
      SampleAt(rf, a);
      SampleAt(rf, b);
      assert tr[0].tid == 0 && tr[2].tid == 1 && tr[4].tid == 2 && tr[11].tid == 3;
    }
  }

  /** The actions on x and y by the threads that are looked at. */
  lemma Objects(rf: nat)
    requires rf == 6 || rf == 7
    ensures var tr := Sample(rf);
            && OnObject(tr, 0, 1, 13) == [9] && OnObject(tr, 0, 3, 13) == [] && OnObject(tr, 1, 0, 13) == [6]
            && OnObject(tr, 1, 1, 13) == [7] && OnObject(tr, 1, 2, 13) == []
  {
    var tr := Sample(rf);
    AloneOn(rf, 0, 1, 9);
    AloneOn(rf, 0, 3, 13);
    AloneOn(rf, 1, 0, 6);
    AloneOn(rf, 1, 1, 7);
    AloneOn(rf, 1, 2, 13);
  }

  /** The only action of thread t on the location is x, or there is none. */
  lemma AloneOn(rf: nat, loc: nat, t: nat, x: nat)
    requires (rf == 6 || rf == 7)
    requires (loc, t, x) in {(0, 1, 9), (0, 3, 13), (1, 0, 6), (1, 1, 7), (1, 2, 13)}
    ensures OnObject(Sample(rf), loc, t, 13) == if x < 13 then [x] else []
  {
    var tr := Sample(rf);
    forall a | 0 <= a < 13
      ensures tr[a].tid == t && tr[a].loc == loc <==> a == x
    {
    }
    OnlyOn(tr, loc, t, 13, x);
  }

  lemma {:induction false} OnlyOn(tr: ScTrace, loc: nat, t: nat, n: nat, x: nat)
    requires n <= |tr| && forall a {:trigger tr[a]} :: 0 <= a < n ==> (tr[a].tid == t && tr[a].loc == loc <==> a == x)
    ensures OnObject(tr, loc, t, n) == if x < n then [x] else []
    decreases n
  {
    if n > 0 {
      OnlyOn(tr, loc, t, n - 1, x);
    }
  }

  lemma Joined(c: Clock, d: Clock, e: Clock)
    requires |e| == Max(|c|, |d|) && forall t :: 0 <= t < |e| ==> e[t] == Max(At(c, t), At(d, t))
    ensures Join(c, d) == e
  {
    var j := Join(c, d);
    forall t | 0 <= t < |e|
      ensures j[t] == e[t]
    {
      assert At(j, t) == Max(At(c, t), At(d, t));
    }
  }

  // ----- the clocks -----

  /** The clocks at the end of a pass; those that change are of thread 1's writes and of the last read. */
  function Table(c7: Clock, c9: Clock, c12: Clock): (c: seq<Clock>)
    ensures |c| == 13
  {
    [[1], [2], [2, 3], [4], [4, 0, 5], [6], [7], c7, [6, 0, 9], c9, [11], [11, 0, 0, 12], c12]
  }

  function Full(c: seq<Clock>): (s: Vectors)
    ensures |s.cvs| == |c| && !s.cyclic && forall a :: 0 <= a < |c| ==> s.cvs[a] == Some(c[a])
  {
    Vectors(seq(|c|, a requires 0 <= a < |c| => Some(c[a])), false)
  }

  /** The first n clocks are set. */
  function Partly(c: seq<Clock>, n: nat): (s: Vectors)
    requires n <= |c|
    ensures |s.cvs| == |c| && !s.cyclic && forall a :: 0 <= a < |c| ==> s.cvs[a] == if a < n then Some(c[a]) else None
  {
    Vectors(seq(|c|, a requires 0 <= a < |c| => if a < n then Some(c[a]) else None), false)
  }

  function First(): (c: seq<Clock>)
    ensures |c| == 13
  {
    Table([2, 8], [2, 10], [11, 0, 0, 13])
  }

  // ----- predecessors -----

  function LastBefore(rf: nat, a: nat): map<nat, nat>
    requires a <= 13
  {
    if a == 0 then map[] else LastBefore(rf, a - 1)[Sample(rf)[a - 1].tid := a - 1]
  }

  lemma {:induction false} LastsOk(rf: nat, a: nat)
    requires a <= 13
    ensures LastOk(Sample(rf), LastBefore(rf, a))
  {
    if a > 0 {
      LastsOk(rf, a - 1);
    }
  }

  function Before(a: nat): Option<nat> {
    if a == 0 || a > 12 then None
    else Some([0, 0, 1, 1, 3, 3, 5, 2, 4, 7, 6, 10, 11][a])
  }

  lemma {:induction false} LatestBefore(rf: nat, a: nat)
    requires a <= 13
    ensures Latest(Sample(rf), LastBefore(rf, a), a)
  {
    hide Latest;
    if a == 0 {
      LatestNone(rf);
    } else {
      LatestBefore(rf, a - 1);
      LatestNext(Sample(rf), LastBefore(rf, a - 1), a - 1);
    }
  }

  lemma LatestNone(rf: nat)
    ensures Latest(Sample(rf), map[], 0)
  {
  }

  lemma PreviousIs(rf: nat, a: nat)
    requires a < 13 && (rf == 6 || rf == 7) && Before(a).Some?
    ensures !Sample(rf)[a].start ==> Previous(Sample(rf), Before(a).value, a)
  {
    var tr := Sample(rf);
    if a == 1 {
      assert tr[0].tid == tr[1].tid == 0;
    } else if a == 3 {
      assert tr[1].tid == tr[3].tid == 0 && tr[2].tid == 1;
    } else if a == 5 {
      assert tr[3].tid == tr[5].tid == 0 && tr[4].tid == 2;
    } else if a == 6 {
      assert tr[5].tid == tr[6].tid == 0;
    } else if a == 7 {
      assert tr[2].tid == tr[7].tid == 1 && tr[3].tid == 0 && tr[4].tid == 2 && tr[5].tid == 0 && tr[6].tid == 0;
    } else if a >= 8 {
      PreviousLater(rf, a);
    }
  }

  lemma PreviousLater(rf: nat, a: nat)
    requires 8 <= a < 13 && (rf == 6 || rf == 7) && Before(a).Some?
    ensures !Sample(rf)[a].start ==> Previous(Sample(rf), Before(a).value, a)
  {
    var tr := Sample(rf);
    if a == 8 {
      assert tr[4].tid == tr[8].tid == 2 && tr[5].tid == 0 && tr[6].tid == 0 && tr[7].tid == 1;
    } else if a == 9 {
      assert tr[7].tid == tr[9].tid == 1 && tr[8].tid == 2;
    } else if a == 10 {
      assert tr[6].tid == tr[10].tid == 0 && tr[7].tid == 1 && tr[8].tid == 2 && tr[9].tid == 1;
    } else if a == 12 {
      assert tr[11].tid == tr[12].tid == 3;
    }
  }

  lemma Lasts(rf: nat, a: nat)
    requires a < 13 && (rf == 6 || rf == 7)
    ensures LastAct(Sample(rf), LastBefore(rf, a), a) == Before(a)
  {
    hide LastBefore, Latest, Previous;
    var tr := Sample(rf);
    LatestBefore(rf, a);
    SampleAt(rf, a);
    if tr[a].start {
      assert tr[0].creation == None && tr[2].creation == Some(1) && tr[4].creation == Some(3)
             && tr[11].creation == Some(10);
    } else {
      PreviousIs(rf, a);
      PreviousLast(tr, LastBefore(rf, a), Before(a).value, a);
    }
  }

  lemma PreviousLast(tr: ScTrace, last: map<nat, nat>, b: nat, a: nat)
    requires Latest(tr, last, a) && a < |tr| && !tr[a].start && Previous(tr, b, a)
    ensures LastAct(tr, last, a) == Some(b)
  {
    var m := last[tr[b].tid];
    assert b <= m < a && tr[m].tid == tr[a].tid;
  }

  /** One visit of a pass over the sample. */
  lemma Onward(rf: nat, a: nat, s: Vectors, changed: bool, s': Vectors, changed': bool)
    requires a < 13 && |s.cvs| == 13 && (rf == 6 || rf == 7) && Complete(Sample(rf), 4)
    requires Visit(Sample(rf), s, changed, a, Before(a), 4) == (s', changed')
    ensures LastOk(Sample(rf), LastBefore(rf, a)) && LastOk(Sample(rf), LastBefore(rf, a + 1)) && |s'.cvs| == 13
    ensures Pass(Sample(rf), s, changed, a, LastBefore(rf, a), 4) == Pass(Sample(rf), s', changed', a + 1,
              LastBefore(rf, a + 1), 4)
  {
    hide Visit, Complete;
    LastsOk(rf, a);
    LastsOk(rf, a + 1);
    Lasts(rf, a);
  }

  // ----- visits to actions that do not read -----

  lemma VisitPlain(tr: ScTrace, s: Vectors, changed: bool, a: nat, b: Option<nat>, e: Clock, threads: nat)
    requires Complete(tr, threads) && a < |s.cvs| == |tr| && (b.Some? ==> b.value < |tr|) && !tr[a].read
             && tr[a].join.None? && s.cvs[a].Some?
    requires match b
             case None => e == s.cvs[a].value
             case Some(p) =>
               s.cvs[p].Some? && !Since(s.cvs[p].value, tr[a].tid, a) && Join(s.cvs[a].value, s.cvs[p].value) == e
    ensures Visit(tr, s, changed, a, b, threads) == (s.(cvs := s.cvs[a := Some(e)]), changed)
  {
    assert b.None? ==> s.cvs[a := Some(e)] == s.cvs;
  }

  lemma VisitFresh(tr: ScTrace, s: Vectors, changed: bool, a: nat, b: Option<nat>, threads: nat)
    requires Complete(tr, threads) && a < |s.cvs| == |tr| && s.cvs[a].None? && (b.Some? ==> b.value < |tr|)
    ensures Visit(tr, s, changed, a, b, threads)
         == Visit(tr, s.(cvs := s.cvs[a := Some(Create([], tr[a].tid, a + 1))]), changed, a, b, threads)
  {
    hide ProcessRead, Merge, Complete;
  }

  lemma NewClock(tid: nat, v: nat, e: Clock)
    requires |e| == tid + 1 && forall t :: 0 <= t <= tid ==> e[t] == if t == tid then v else 0
    ensures Create([], tid, v) == e
  {
    var c := Create([], tid, v);
    forall t | 0 <= t < |e|
      ensures c[t] == e[t]
    {
      assert At(c, t) == if t == tid then v else At([], t);
    }
  }

  /** The clock of an action that does not read: its own number on top of its predecessor's clock. */
  lemma Topped(a: nat, own: Clock)
    requires a < 12 && a != 8 && (own == Create([], Sample(7)[a].tid, a + 1) || own == First()[a])
    ensures match Before(a)
            case None => own == First()[a]
            case Some(p) => !Since(First()[p], Sample(7)[a].tid, a) && Join(own, First()[p]) == First()[a]
  {
    hide Join, Create, Read;
    if a >= 6 {
      ToppedLater(a, own);
    } else if a == 0 {
      NewClock(0, 1, [1]);
    } else if a == 1 {
      NewClock(0, 2, [2]);
      Joined([2], [1], [2]);
    } else if a == 2 {
      NewClock(1, 3, [0, 3]);
      Joined([0, 3], [2], [2, 3]);
      Joined([2, 3], [2], [2, 3]);
    } else if a == 3 {
      NewClock(0, 4, [4]);
      Joined([4], [2], [4]);
    } else if a == 4 {
      NewClock(2, 5, [0, 0, 5]);
      Joined([0, 0, 5], [4], [4, 0, 5]);
      Joined([4, 0, 5], [4], [4, 0, 5]);
    } else if a == 5 {
      NewClock(0, 6, [6]);
      Joined([6], [4], [6]);
    }
  }

  lemma ToppedLater(a: nat, own: Clock)
    requires 6 <= a < 12 && a != 8 && (own == Create([], Sample(7)[a].tid, a + 1) || own == First()[a])
    ensures Before(a).Some? && !Since(First()[Before(a).value], Sample(7)[a].tid, a)
    ensures Join(own, First()[Before(a).value]) == First()[a]
  {
    hide Join, Create, Read;
    if a == 6 {
      NewClock(0, 7, [7]);
      Joined([7], [6], [7]);
    } else if a == 7 {
      NewClock(1, 8, [0, 8]);
      Joined([0, 8], [2, 3], [2, 8]);
      Joined([2, 8], [2, 3], [2, 8]);
    } else if a == 9 {
      NewClock(1, 10, [0, 10]);
      Joined([0, 10], [2, 8], [2, 10]);
      Joined([2, 10], [2, 8], [2, 10]);
    } else if a == 10 {
      NewClock(0, 11, [11]);
      Joined([11], [7], [11]);
    } else if a == 11 {
      NewClock(3, 12, [0, 0, 0, 12]);
      Joined([0, 0, 0, 12], [11], [11, 0, 0, 12]);
      Joined([11, 0, 0, 12], [11], [11, 0, 0, 12]);
    }
  }
  lemma SameTids(rf: nat, a: nat)
    requires a < 12
    ensures Sample(rf)[a] == Sample(7)[a]
  {
  }

  /** In the first pass, a visit sets the next clock. */
  lemma FirstVisit(rf: nat, a: nat)
    requires a < 12 && a != 8 && (rf == 6 || rf == 7) && Complete(Sample(rf), 4)
    ensures Visit(Sample(rf), Partly(First(), a), true, a, Before(a), 4) == (Partly(First(), a + 1), true)
  {
    hide Visit, Complete, Create, Join, First, Since;
    var tr, s := Sample(rf), Partly(First(), a);
    SampleAt(rf, a);
    SameTids(rf, a);
    VisitFresh(tr, s, true, a, Before(a), 4);
    var own := Create([], tr[a].tid, a + 1);
    var s' := s.(cvs := s.cvs[a := Some(own)]);
    Topped(a, own);
    BeforeEarlier(a);
    VisitPlain(tr, s', true, a, Before(a), First()[a], 4);
    assert s'.cvs[a := Some(First()[a])] == Partly(First(), a + 1).cvs;
  }

  lemma BeforeEarlier(a: nat)
    ensures Before(a).Some? ==> Before(a).value < a
  {
  }

  /**
   * In later passes, a visit to an action that does not read leaves the clocks if its clock takes in its
   * predecessor's.
   */
  lemma LaterVisit(rf: nat, c: seq<Clock>, a: nat)
    requires a < 12 && a != 8 && (rf == 6 || rf == 7) && Complete(Sample(rf), 4) && |c| == 13
    requires match Before(a)
             case None => true
             case Some(p) => !Since(c[p], Sample(7)[a].tid, a) && Join(c[a], c[p]) == c[a]
    ensures Visit(Sample(rf), Full(c), false, a, Before(a), 4) == (Full(c), false)
  {
    hide Visit, Complete, Join, Since;
    var tr, s := Sample(rf), Full(c);
    SampleAt(rf, a);
    SameTids(rf, a);
    BeforeEarlier(a);
    VisitPlain(tr, s, false, a, Before(a), c[a], 4);
    assert s.cvs[a := Some(c[a])] == s.cvs;
  }

  // ----- visits to the reads -----

  /** The read of x, when thread 1's write of x is not known to follow what is read. */
  lemma ReadX(rf: nat, s: Vectors, changed: bool, c8: Clock)
    requires |s.cvs| == 13 && !s.cyclic && (rf == 6 || rf == 7) && (c8 == [0, 0, 9] || c8 == [6, 0, 9])
    requires s.cvs[4] == Some([4, 0, 5]) && s.cvs[5] == Some([6]) && s.cvs[8] == Some(c8)
             && (s.cvs[9].Some? ==> s.cvs[9].value == [2, 10])
    ensures Complete(Sample(rf), 4)
    ensures Visit(Sample(rf), s, changed, 8, Some(4), 4) == (s.(cvs := s.cvs[8 := Some([6, 0, 9])]), changed)
  {
    hide Complete, OnObject, Join, Spawn, Exceeds;
    SampleComplete(rf);
    Objects(rf);
    var tr := Sample(rf);
    var d := if c8 == [0, 0, 9] then [4, 0, 9] else [6, 0, 9];
    Joined(c8, [4, 0, 5], d);
    Joined(d, [6], [6, 0, 9]);
    var s1, s' := s.(cvs := s.cvs[8 := Some(d)]), s.(cvs := s.cvs[8 := Some([6, 0, 9])]);
    assert Merge(tr, s, 8, 4).0 == s1;
    assert Merge(tr, s1, 8, 5).0 == s' by {
      assert s1.cvs[8 := Some([6, 0, 9])] == s'.cvs;
    }
    assert ReadBack(tr, s', false, 8, [9], 1) == (s', false);
    assert ReadThreads(tr, s', false, 8, 4, 2) == (s', false);
    assert ReadThreads(tr, s', false, 8, 4, 0) == (s', false);
  }

  /** The read of y from thread 1 puts thread 1's write of y after thread 0's. */
  lemma ReadY(s: Vectors, changed: bool, c7: Clock, c12: Clock)
    requires |s.cvs| == 13 && !s.cyclic && s.cvs[6] == Some([7]) && s.cvs[7] == Some(c7)
             && s.cvs[11] == Some([11, 0, 0, 12]) && s.cvs[12] == Some(c12)
    requires (c7 == [2, 8] && c12 == [0, 0, 0, 13]) || (c7 == [7, 8] && c12 == [11, 8, 0, 13])
    ensures Complete(Sample(7), 4)
    ensures Visit(Sample(7), s, changed, 12, Some(11), 4)
         == (s.(cvs := s.cvs[7 := Some([7, 8])][12 := Some([11, 8, 0, 13])]), changed || c7 == [2, 8])
  {
    hide Complete, OnObject, Join, Begin, Exceeds;
    SampleComplete(7);
    Objects(7);
    var tr := Sample(7);
    var d := if c7 == [2, 8] then [11, 0, 0, 13] else [11, 8, 0, 13];
    Joined(c12, [11, 0, 0, 12], d);
    Joined(d, c7, [11, 8, 0, 13]);
    Joined(c7, [7], [7, 8]);
    var s1, s2 := s.(cvs := s.cvs[12 := Some(d)]), s.(cvs := s.cvs[12 := Some([11, 8, 0, 13])]);
    assert Merge(tr, s, 12, 11).0 == s1;
    assert Merge(tr, s1, 12, 7).0 == s2 by {
      assert s1.cvs[12 := Some([11, 8, 0, 13])] == s2.cvs;
    }
    var s3 := s.(cvs := s.cvs[7 := Some([7, 8])][12 := Some([11, 8, 0, 13])]);
    MergeY(s2, s3, c7);
    assert ReadBack(tr, s2, false, 12, [6], 1) == (s3, c7 == [2, 8]);
    assert ReadThreads(tr, s3, c7 == [2, 8], 12, 4, 2) == (s3, c7 == [2, 8]);
    assert ReadThreads(tr, s2, false, 12, 4, 0) == (s3, c7 == [2, 8]);
  }

  lemma MergeY(s: Vectors, s': Vectors, c7: Clock)
    requires |s.cvs| == 13 && s.cvs[6] == Some([7]) && s.cvs[7] == Some(c7) && (c7 == [2, 8] || c7 == [7, 8])
    requires s'.cyclic == s.cyclic && s'.cvs == s.cvs[7 := Some([7, 8])]
    ensures Merge(Sample(7), s, 7, 6) == (s', c7 == [2, 8])
  {
    Joined(c7, [7], [7, 8]);
    assert c7 == [2, 8] ==> At(c7, 0) < [7][0];
  }

  /** The read of y from thread 0 finds nothing. */
  lemma ReadOwnY(s: Vectors, changed: bool, c12: Clock)
    requires |s.cvs| == 13 && !s.cyclic && s.cvs[6] == Some([7]) && s.cvs[7] == Some([2, 8])
             && s.cvs[11] == Some([11, 0, 0, 12]) && s.cvs[12] == Some(c12)
    requires c12 == [0, 0, 0, 13] || c12 == [11, 0, 0, 13]
    ensures Complete(Sample(6), 4)
    ensures Visit(Sample(6), s, changed, 12, Some(11), 4) == (s.(cvs := s.cvs[12 := Some([11, 0, 0, 13])]), changed)
  {
    hide Complete, OnObject;
    SampleComplete(6);
    Objects(6);
    var tr := Sample(6);
    Joined(c12, [11, 0, 0, 12], [11, 0, 0, 13]);
    Joined([11, 0, 0, 13], [7], [11, 0, 0, 13]);
    var s' := s.(cvs := s.cvs[12 := Some([11, 0, 0, 13])]);
    assert Merge(tr, s, 12, 11).0 == s';
    assert Merge(tr, s', 12, 6).0 == s' by {
      assert s'.cvs[12 := Some([11, 0, 0, 13])] == s'.cvs;
    }
    assert ReadBack(tr, s', false, 12, [7], 1) == (s', false);
    assert ReadThreads(tr, s', false, 12, 4, 2) == (s', false);
    assert ReadThreads(tr, s', false, 12, 4, 0) == (s', false);
  }

  // ----- the first pass -----

  lemma {:induction false} FirstUpto(rf: nat, n: nat)
    requires n <= 12 && (rf == 6 || rf == 7)
    ensures Complete(Sample(rf), 4) && LastOk(Sample(rf), map[]) && LastOk(Sample(rf), LastBefore(rf, n))
    ensures Pass(Sample(rf), Unset(13), true, 0, map[], 4) == Pass(Sample(rf), Partly(First(), n), true, n,
                                                                   LastBefore(rf, n), 4)
    decreases n
  {
    hide Pass, Visit, Complete, LastOk, Before;
    SampleComplete(rf);
    LastsOk(rf, 0);
    LastsOk(rf, n);
    if n == 0 {
      assert Unset(13).cvs == Partly(First(), 0).cvs;
    } else {
      FirstUpto(rf, n - 1);
      if n - 1 == 8 {
        FirstReadX(rf);
      } else {
        FirstVisit(rf, n - 1);
      }
      Onward(rf, n - 1, Partly(First(), n - 1), true, Partly(First(), n), true);
    }
  }

  lemma FirstReadX(rf: nat)
    requires rf == 6 || rf == 7
    ensures Complete(Sample(rf), 4)
    ensures Visit(Sample(rf), Partly(First(), 8), true, 8, Before(8), 4) == (Partly(First(), 9), true)
  {
    hide Visit, Complete, Create;
    SampleComplete(rf);
    var tr, s := Sample(rf), Partly(First(), 8);
    SameTids(rf, 8);
    VisitFresh(tr, s, true, 8, Some(4), 4);
    NewClock(2, 9, [0, 0, 9]);
    var s' := s.(cvs := s.cvs[8 := Some([0, 0, 9])]);
    ReadX(rf, s', true, [0, 0, 9]);
    assert s'.cvs[8 := Some([6, 0, 9])] == Partly(First(), 9).cvs;
  }

  /** What the first pass leaves. */
  function After(rf: nat): seq<Clock> {
    if rf == 7 then Table([7, 8], [2, 10], [11, 8, 0, 13]) else First()
  }

  lemma FirstPass(rf: nat)
    requires rf == 6 || rf == 7
    ensures Complete(Sample(rf), 4) && LastOk(Sample(rf), map[])
    ensures Pass(Sample(rf), Unset(13), true, 0, map[], 4) == (Full(After(rf)), true)
  {
    hide Visit, Complete, Create, LastOk;
    FirstUpto(rf, 12);
    var tr, s := Sample(rf), Partly(First(), 12);
    assert tr[12].tid == 3;
    VisitFresh(tr, s, true, 12, Some(11), 4);
    NewClock(3, 13, [0, 0, 0, 13]);
    var s' := s.(cvs := s.cvs[12 := Some([0, 0, 0, 13])]);
    if rf == 7 {
      ReadY(s', true, [2, 8], [0, 0, 0, 13]);
      assert s'.cvs[7 := Some([7, 8])][12 := Some([11, 8, 0, 13])] == Full(After(7)).cvs;
    } else {
      ReadOwnY(s', true, [0, 0, 0, 13]);
      assert s'.cvs[12 := Some([11, 0, 0, 13])] == Full(After(6)).cvs;
    }
    Onward(rf, 12, s, true, Full(After(rf)), true);
  }
  // ----- later passes -----

  /** Up to the read of x nothing changes any more. */
  lemma {:induction false} LaterUpto(rf: nat, c7: Clock, c9: Clock, c12: Clock, n: nat)
    requires n <= 8 && (rf == 6 || rf == 7) && (c7 == [2, 8] || c7 == [7, 8])
    ensures Complete(Sample(rf), 4) && LastOk(Sample(rf), map[]) && LastOk(Sample(rf), LastBefore(rf, n))
    ensures var s := Full(Table(c7, c9, c12));
            Pass(Sample(rf), s, false, 0, map[], 4) == Pass(Sample(rf), s, false, n, LastBefore(rf, n), 4)
    decreases n
  {
    hide Pass, Visit, Complete, LastOk, Before, Since;
    SampleComplete(rf);
    LastsOk(rf, 0);
    LastsOk(rf, n);
    if n > 0 {
      LaterUpto(rf, c7, c9, c12, n - 1);
      LaterTop(c7, c9, c12, n - 1);
      LaterVisit(rf, Table(c7, c9, c12), n - 1);
      Onward(rf, n - 1, Full(Table(c7, c9, c12)), false, Full(Table(c7, c9, c12)), false);
    }
  }

  lemma LaterTop(c7: Clock, c9: Clock, c12: Clock, a: nat)
    requires a < 12 && a != 8 && a != 9 && (c7 == [2, 8] || c7 == [7, 8])
    ensures match Before(a)
            case None => true
            case Some(p) => var c := Table(c7, c9, c12); !Since(c[p], Sample(7)[a].tid, a) && Join(c[a], c[p]) == c[a]
  {
    hide Join, Create;
    if a == 7 {
      Joined([7, 8], [2, 3], [7, 8]);
      Joined([2, 8], [2, 3], [2, 8]);
    } else {
      Topped(a, First()[a]);
    }
  }

  /** The second pass counts no change, but lets thread 1's write of x follow thread 0's. */
  lemma SecondPass()
    ensures Complete(Sample(7), 4) && LastOk(Sample(7), map[])
    ensures Pass(Sample(7), Full(After(7)), false, 0, map[], 4) == (Full(Table([7, 8], [7, 10], [11, 8, 0, 13])), false)
  {
    hide Visit, Complete, LastOk, Full, LastAct, First;
    var s, s' := Full(After(7)), Full(Table([7, 8], [7, 10], [11, 8, 0, 13]));
    LaterUpto(7, [7, 8], [2, 10], [11, 8, 0, 13], 8);
    SecondEight();
    Onward(7, 8, s, false, s, false);
    SecondNine();
    Onward(7, 9, s, false, s', false);
    SecondRest();
  }

  lemma SecondEight()
    ensures Complete(Sample(7), 4)
            && Visit(Sample(7), Full(After(7)), false, 8, Before(8), 4) == (Full(After(7)), false)
  {
    hide Visit, Complete;
    SampleComplete(7);
    var s := Full(After(7));
    ReadX(7, s, false, [6, 0, 9]);
    assert s.cvs[8 := Some([6, 0, 9])] == s.cvs;
  }

  lemma SecondNine()
    ensures Complete(Sample(7), 4)
    ensures Visit(Sample(7), Full(After(7)), false, 9, Before(9), 4)
            == (Full(Table([7, 8], [7, 10], [11, 8, 0, 13])), false)
  {
    hide Visit, Complete;
    SampleComplete(7);
    var s, s' := Full(After(7)), Full(Table([7, 8], [7, 10], [11, 8, 0, 13]));
    Joined([2, 10], [7, 8], [7, 10]);
    SampleAt(7, 9);
    VisitPlain(Sample(7), s, false, 9, Some(7), [7, 10], 4);
    assert s.cvs[9 := Some([7, 10])] == s'.cvs;
  }

  lemma SecondRest()
    ensures Complete(Sample(7), 4) && LastOk(Sample(7), LastBefore(7, 10))
    ensures var s' := Full(Table([7, 8], [7, 10], [11, 8, 0, 13]));
            Pass(Sample(7), s', false, 10, LastBefore(7, 10), 4) == (s', false)
  {
    hide Visit, Complete, LastOk;
    SampleComplete(7);
    var c := Table([7, 8], [7, 10], [11, 8, 0, 13]);
    var s' := Full(c);
    LaterTop([7, 8], [7, 10], [11, 8, 0, 13], 10);
    LaterVisit(7, c, 10);
    Onward(7, 10, s', false, s', false);
    LaterTop([7, 8], [7, 10], [11, 8, 0, 13], 11);
    LaterVisit(7, c, 11);
    Onward(7, 11, s', false, s', false);
    ReadY(s', false, [7, 8], [11, 8, 0, 13]);
    assert s'.cvs[7 := Some([7, 8])][12 := Some([11, 8, 0, 13])] == s'.cvs;
    Onward(7, 12, s', false, s', false);
  }

  /** A third pass would count a change: the read of x comes before thread 1's write of x. */
  lemma ThirdPass()
    ensures Complete(Sample(7), 4) && LastOk(Sample(7), map[])
    ensures Pass(Sample(7), Full(Table([7, 8], [7, 10], [11, 8, 0, 13])), false, 0, map[], 4).1
  {
    hide Visit, Complete, LastAct, LastOk, Pass;
    var s := Full(Table([7, 8], [7, 10], [11, 8, 0, 13]));
    LaterUpto(7, [7, 8], [7, 10], [11, 8, 0, 13], 8);
    ReadLate(s);
    var p := Visit(Sample(7), s, false, 8, Some(4), 4);
    Onward(7, 8, s, false, p.0, p.1);
    PassSticky(Sample(7), p.0, 9, LastBefore(7, 9), 4);
  }

  lemma ReadLate(s: Vectors)
    requires s == Full(Table([7, 8], [7, 10], [11, 8, 0, 13]))
    ensures Complete(Sample(7), 4) && Visit(Sample(7), s, false, 8, Some(4), 4).1
  {
    hide Complete, OnObject, Full, Table;
    SampleComplete(7);
    Objects(7);
    var tr := Sample(7);
    LateClocks(s);
    Joined([6, 0, 9], [4, 0, 5], [6, 0, 9]);
    Joined([6, 0, 9], [6], [6, 0, 9]);
    assert s.cvs[8 := Some([6, 0, 9])] == s.cvs;
    assert Merge(tr, s, 8, 4).0 == s;
    assert Merge(tr, s, 8, 5).0 == s;
    LateScan(s);
  }

  lemma LateClocks(s: Vectors)
    requires s == Full(Table([7, 8], [7, 10], [11, 8, 0, 13]))
    ensures |s.cvs| == 13 && !s.cyclic && s.cvs[4] == Some([4, 0, 5]) && s.cvs[5] == Some([6])
            && s.cvs[8] == Some([6, 0, 9]) && s.cvs[9] == Some([7, 10])
  {
  }

  lemma LateScan(s: Vectors)
    requires |s.cvs| == 13 && s.cvs[5] == Some([6]) && s.cvs[8] == Some([6, 0, 9]) && s.cvs[9] == Some([7, 10])
    ensures ReadThreads(Sample(7), s, false, 8, 4, 0).1
  {
    hide OnObject;
    Objects(7);
    var tr := Sample(7);
    assert At([7, 10], 2) < [6, 0, 9][2];
    assert Merge(tr, s, 9, 8).1;
    var p := ReadBack(tr, s, false, 8, [9], 1);
    assert p.1;
    ReadBackSets(tr, s, false, 8, [9], 1);
    assert ReadThreads(tr, p.0, true, 8, 4, 2) == (p.0, true);
    assert ReadThreads(tr, s, false, 8, 4, 0) == (p.0, true);
  }

  // ----- the results -----

  /** The computed clocks need not be a fixpoint of the passes. */
  lemma NotSettled()
    ensures Complete(Sample(7), 4) && Bounded(Unset(13), 4) && Regular(Sample(7)) && ReadsBack(Sample(7))
    ensures var f := Computed(Sample(7), Unset(13), true, 4);
            Pass(Sample(7), f, false, 0, map[], 4).1 && !Settled(Sample(7), f, 4)
  {
    hide Complete, Pass, Slack, Regular, ReadsBack, LastOk, Bounded;
    SampleRegular(7);
    FirstPass(7);
    SecondPass();
    ThirdPass();
    var tr := Sample(7);
    NothingBounded();
    PassGrows(tr, Unset(13), true, 4);
    var s1, s2 := Full(After(7)), Full(Table([7, 8], [7, 10], [11, 8, 0, 13]));
    assert Computed(tr, s1, false, 4) == s2;
    assert Computed(tr, Unset(13), true, 4) == s2;
    assert s2.(cyclic := false) == s2;
  }

  lemma NothingBounded()
    ensures Bounded(Unset(13), 4)
  {
  }

  /**
   * The same trace with the last read observing thread 0: it violates both conditions on traces, and yet the clocks
   * are a fixpoint. So where the writes stand does not decide it alone.
   */
  lemma SettledAllTheSame()
    ensures Complete(Sample(6), 4) && Bounded(Unset(13), 4) && Regular(Sample(6)) && ReadsBack(Sample(6))
    ensures !AllLate(Sample(6)) && !Apart(Sample(6))
    ensures Settled(Sample(6), Computed(Sample(6), Unset(13), true, 4), 4)
  {
    hide Complete, Pass, Slack, Regular, ReadsBack, LastOk, AllLate, Apart, Bounded;
    SampleRegular(6);
    FirstPass(6);
    CalmPass();
    Mixed();
    var tr, s := Sample(6), Full(First());
    NothingBounded();
    PassGrows(tr, Unset(13), true, 4);
    assert Computed(tr, s, false, 4) == s;
    assert Computed(tr, Unset(13), true, 4) == s;
    assert s.(cyclic := false) == s;
  }

  lemma CalmPass()
    ensures Complete(Sample(6), 4) && LastOk(Sample(6), map[])
    ensures Pass(Sample(6), Full(First()), false, 0, map[], 4) == (Full(First()), false)
  {
    hide Visit, Complete, LastOk, Pass, First, Table;
    var s := Full(First());
    FirstIs();
    LaterUpto(6, [2, 8], [2, 10], [11, 0, 0, 13], 8);
    ReadX(6, s, false, [6, 0, 9]);
    assert s.cvs[8 := Some([6, 0, 9])] == s.cvs;
    Onward(6, 8, s, false, s, false);
    CalmRest();
  }

  lemma FirstIs()
    ensures First() == Table([2, 8], [2, 10], [11, 0, 0, 13])
    ensures var s := Full(First());
            && s.cvs[4] == Some([4, 0, 5]) && s.cvs[5] == Some([6]) && s.cvs[8] == Some([6, 0, 9])
            && s.cvs[9] == Some([2, 10]) && s.cvs[6] == Some([7]) && s.cvs[7] == Some([2, 8])
            && s.cvs[11] == Some([11, 0, 0, 12]) && s.cvs[12] == Some([11, 0, 0, 13])
  {
  }

  lemma CalmVisit(a: nat)
    requires 9 <= a < 12
    ensures Complete(Sample(6), 4) && LastOk(Sample(6), LastBefore(6, a)) && LastOk(Sample(6), LastBefore(6, a + 1))
    ensures var s := Full(First());
            Pass(Sample(6), s, false, a, LastBefore(6, a), 4) == Pass(Sample(6), s, false, a + 1,
                                                                      LastBefore(6, a + 1), 4)
  {
    hide Visit, Complete, LastOk, Pass;
    SampleComplete(6);
    var s := Full(First());
    Topped(a, First()[a]);
    LaterVisit(6, First(), a);
    Onward(6, a, s, false, s, false);
  }

  lemma CalmRest()
    ensures Complete(Sample(6), 4) && LastOk(Sample(6), LastBefore(6, 9))
    ensures Pass(Sample(6), Full(First()), false, 9, LastBefore(6, 9), 4) == (Full(First()), false)
  {
    hide Visit, Complete, LastOk, First, Table;
    var s := Full(First());
    FirstIs();
    CalmVisit(9);
    CalmVisit(10);
    CalmVisit(11);
    ReadOwnY(s, false, [11, 0, 0, 13]);
    assert s.cvs[12 := Some([11, 0, 0, 13])] == s.cvs;
    Onward(6, 12, s, false, s, false);
  }

  lemma Mixed()
    ensures !AllLate(Sample(6)) && !Apart(Sample(6))
  {
    var tr := Sample(6);
    assert Third(tr, 12, 7) && Third(tr, 8, 9);
    assert Hit(tr, Any, 7);
    assert Previous(tr, 7, 9) by {
      PreviousIs(6, 9);
      assert !tr[9].start;
    }
    var p := [7, 9];
    assert Link(tr, p, 0);
    assert Path(tr, p);
    assert Reached(tr, Any, 9);
  }
}
