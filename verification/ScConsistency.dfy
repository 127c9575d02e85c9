/** When the order found is sequentially consistent: every read sees the last write of its location before it. */
module ScConsistency {
  import opened GraphTheory
  import opened ScTheory
  import opened ScGeneration
  import opened ScSolutions
  import opened ScSettled
  import opened ScLate
  import opened ScTraces
  import opened ScRespected
  import opened ScSettledRuns
  import opened Relations

  // ----- what a read sees -----

  /** The last write of a location among the first n. */
  function LastWrite(tr: ScTrace, out: seq<nat>, n: nat, loc: nat): (r: Option<nat>)
    requires n <= |out| && forall i {:trigger out[i]} :: 0 <= i < |out| ==> out[i] < |tr|
  {
    if n == 0 then None
    else if tr[out[n - 1]].write && tr[out[n - 1]].loc == loc then Some(out[n - 1])
    else LastWrite(tr, out, n - 1, loc)
  }

  /** The action at this place, if a read, sees what it observed in the trace. */
  predicate Sees(tr: ScTrace, out: seq<nat>, n: nat)
    requires n < |out| && forall i {:trigger out[i]} :: 0 <= i < |out| ==> out[i] < |tr|
  {
    tr[out[n]].read ==> LastWrite(tr, out, n, tr[out[n]].loc) == Some(tr[out[n]].rf)
  }

  function Looked(last: map<nat, nat>, loc: nat): Option<nat> {
    if loc in last then Some(last[loc]) else None
  }

  /** The last write of a location before the n-th action of a list, or what was there before the list. */
  function Current(tr: ScTrace, out: seq<nat>, n: nat, loc: nat, last: map<nat, nat>): Option<nat>
    requires n <= |out| && forall i {:trigger out[i]} :: 0 <= i < |out| ==> out[i] < |tr|
  {
    var w := LastWrite(tr, out, n, loc);
    if w.Some? then w else Looked(last, loc)
  }

  /** The action at this place reads, and does not see what it observed. */
  predicate Misses(tr: ScTrace, out: seq<nat>, n: nat, last: map<nat, nat>)
    requires n < |out| && forall i {:trigger out[i]} :: 0 <= i < |out| ==> out[i] < |tr|
  {
    tr[out[n]].read && Current(tr, out, n, tr[out[n]].loc, last) != Some(tr[out[n]].rf)
  }

  /** A sequentially consistent order of the trace. */
  ghost predicate Consistent(tr: ScTrace, out: seq<nat>) {
    Interleaving(tr, out) && forall n: nat {:trigger Sees(tr, out, n)} :: n < |out| ==> Sees(tr, out, n)
  }

  lemma InPrefix(tr: ScTrace, out: seq<nat>, i: nat, m: nat)
    requires Ordered(tr, out) && i < |out| && m <= |out|
    ensures out[i] in out[..m] <==> i < m
  {
    if out[i] in out[..m] {
      var j :| 0 <= j < m && out[j] == out[i];
      assert !(i < j) && !(j < i);
    }
  }

  /** The record of the first n: a read that misses what it observed, with what it sees. */
  ghost predicate MissRecorded(tr: ScTrace, out: seq<nat>, m: nat,
                               last: map<nat, nat>, bad0: map<nat, Option<nat>>, bad: map<nat, Option<nat>>)
    requires m < |out| && forall i {:trigger out[i]} :: 0 <= i < |out| ==> out[i] < |tr|
  {
    && (out[m] in bad <==> out[m] in bad0 || Misses(tr, out, m, last))
    && (Misses(tr, out, m, last) ==> out[m] in bad && bad[out[m]] == Current(tr, out, m, tr[out[m]].loc, last))
  }

  ghost predicate MissesRecorded(tr: ScTrace, out: seq<nat>, n: nat,
                                 last: map<nat, nat>, bad0: map<nat, Option<nat>>, bad: map<nat, Option<nat>>) {
    && n <= |out| && (forall i {:trigger out[i]} :: 0 <= i < |out| ==> out[i] < |tr|)
    && (forall a: nat {:trigger a in bad} {:trigger a in bad0} :: a !in out[..n] ==> (a in bad <==> a in bad0))
    && forall m: nat {:trigger out[m]} :: m < n ==> MissRecorded(tr, out, m, last, bad0, bad)
  }

  /** The last writes after the first n. */
  ghost predicate WritesKept(tr: ScTrace, out: seq<nat>, n: nat, last0: map<nat, nat>, last: map<nat, nat>) {
    && n <= |out| && (forall i {:trigger out[i]} :: 0 <= i < |out| ==> out[i] < |tr|)
    && forall loc: nat {:trigger Looked(last, loc)} :: Looked(last, loc) == Current(tr, out, n, loc, last0)
  }

  lemma OrderedIn(tr: ScTrace, out: seq<nat>)
    requires Ordered(tr, out)
    ensures forall i {:trigger out[i]} :: 0 <= i < |out| ==> out[i] < |tr|
  {
  }

  lemma NoneRecorded(tr: ScTrace, out: seq<nat>, last: map<nat, nat>, bad: map<nat, Option<nat>>)
    requires Ordered(tr, out)
    ensures MissesRecorded(tr, out, 0, last, bad, bad) && WritesKept(tr, out, 0, last, last)
  {
  }

  /** One more action is recorded: as missing if it reads and the last write is not what it observed, and as a write. */
  lemma RecordNext(tr: ScTrace, out: seq<nat>, n: nat, last0: map<nat, nat>, bad0: map<nat, Option<nat>>,
                   bad: map<nat, Option<nat>>, last: map<nat, nat>)
    requires Ordered(tr, out) && n < |out| && MissesRecorded(tr, out, n, last0, bad0, bad)
             && WritesKept(tr, out, n, last0, last)
    ensures var a := out[n];
            var seen := Looked(last, tr[a].loc);
            && MissesRecorded(tr, out, n + 1, last0, bad0, if tr[a].read
                              && Some(tr[a].rf) != seen then bad[a := seen] else bad)
            && WritesKept(tr, out, n + 1, last0, if tr[a].write then last[tr[a].loc := a] else last)
  {
    hide Ordered, LastWrite, Current;
    var a := out[n];
    var seen := Looked(last, tr[a].loc);
    var bad' := if tr[a].read && Some(tr[a].rf) != seen then bad[a := seen] else bad;
    assert seen == Current(tr, out, n, tr[a].loc, last0);
    InPrefix(tr, out, n, n);
    assert out[..n + 1] == out[..n] + [a];
    forall m: nat | m < n + 1
      ensures MissRecorded(tr, out, m, last0, bad0, bad')
    {
      if m < n {
        assert MissRecorded(tr, out, m, last0, bad0, bad);
        InPrefix(tr, out, m, n);
      } else {
        assert a in bad <==> a in bad0;
      }
    }
    WriteNext(tr, out, n, last0, last);
  }

  lemma WriteNext(tr: ScTrace, out: seq<nat>, n: nat, last0: map<nat, nat>, last: map<nat, nat>)
    requires n < |out| && WritesKept(tr, out, n, last0, last)
    ensures var a := out[n]; WritesKept(tr, out, n + 1, last0, if tr[a].write then last[tr[a].loc := a] else last)
  {
    var a := out[n];
    var last' := if tr[a].write then last[tr[a].loc := a] else last;
    forall loc: nat
      ensures Looked(last', loc) == Current(tr, out, n + 1, loc, last0)
    {
      assert Looked(last, loc) == Current(tr, out, n, loc, last0);
    }
  }

  /** From empty records, nothing is recorded as missing exactly if the order is sequentially consistent. */
  lemma NoneMissed(tr: ScTrace, out: seq<nat>,
                   last: map<nat, nat>, bad0: map<nat, Option<nat>>, bad: map<nat, Option<nat>>)
    requires MissesRecorded(tr, out, |out|, last, bad0, bad)
    ensures bad0 == map[] && last == map[] && Interleaving(tr, out) ==> (bad == map[] <==> Consistent(tr, out))
  {
    if bad0 == map[] && last == map[] && Interleaving(tr, out) {
      assert out[..|out|] == out;
      forall n: nat | n < |out|
        ensures Sees(tr, out, n) <==> out[n] !in bad
      {
        assert MissRecorded(tr, out, n, last, bad0, bad);
      }
      if bad != map[] {
        var a :| a in bad;
        assert a in out;
        var n :| 0 <= n < |out| && out[n] == a;
        assert !Sees(tr, out, n);
      }
      if !Consistent(tr, out) {
        var n: nat :| n < |out| && !Sees(tr, out, n);
        assert out[n] in bad;
      }
    }
  }

  /** A write of the location at this place. */
  ghost predicate WriteAt(tr: ScTrace, out: seq<nat>, m: nat, loc: nat) {
    m < |out| && out[m] < |tr| && tr[out[m]].write && tr[out[m]].loc == loc
  }

  lemma {:induction false} LastWriteIs(tr: ScTrace, out: seq<nat>, i: nat, n: nat, loc: nat)
    requires Ordered(tr, out) && i < n <= |out| && WriteAt(tr, out, i, loc)
    ensures LastWrite(tr, out, n, loc) == Some(out[i]) <==>
              forall m: nat {:trigger WriteAt(tr, out, m, loc)} :: i < m < n ==> !WriteAt(tr, out, m, loc)
    decreases n
  {
    if i < n - 1 {
      LastWriteIs(tr, out, i, n - 1, loc);
      if WriteAt(tr, out, n - 1, loc) {
        assert out[n - 1] != out[i];
      }
    }
  }

  // ----- what an order that keeps to every rule shows -----

  /** Between a read and the write it observes, its own thread or the writer's writes the location. */
  ghost predicate Shadowed(tr: ScTrace, out: seq<nat>, n: nat)
    requires n < |out| && forall i {:trigger out[i]} :: 0 <= i < |out| ==> out[i] < |tr|
  {
    var r := out[n];
    tr[r].read && tr[r].rf < |tr| && exists m: nat {:trigger WriteAt(tr, out, m, tr[r].loc)} ::
      && m < n && WriteAt(tr, out, m, tr[r].loc) && tr[r].rf in out[..m]
      && (tr[out[m]].tid == tr[r].tid || tr[out[m]].tid == tr[tr[r].rf].tid)
  }

  /** No write of a third thread comes between a read and the write it observes. */
  lemma ThirdOutside(tr: ScTrace, out: seq<nat>, i: nat, m: nat, n: nat)
    requires Ordered(tr, out) && ThirdFirst(tr, out) && i < m < n < |out| && tr[out[n]].read && out[i] == tr[out[n]].rf
    ensures !Third(tr, out[n], out[m])
  {
    OrderedDistinct(tr, out);
    assert Precedes(out, out[i], out[m]) && Precedes(out, out[m], out[n]);
    PrecedesIrreflexive(out, out[m], out[n]);
  }

  /** A read sees what it observed exactly if it is not shadowed. */
  lemma SeesUnshadowed(tr: ScTrace, threads: nat, out: seq<nat>, n: nat)
    requires Complete(tr, threads) && Ordered(tr, out) && FollowsFirst(tr, out) && ThirdFirst(tr, out)
    requires n < |out| && tr[out[n]].read
    ensures Sees(tr, out, n) <==> !Shadowed(tr, out, n)
  {
    hide Complete;
    var r := out[n];
    var w := tr[r].rf;
    CompleteRead(tr, threads, r);
    OrderedDistinct(tr, out);
    assert Follows(tr, w, r);
    assert Precedes(out, w, r);
    var i :| 0 <= i < n && out[i] == w;
    LastWriteIs(tr, out, i, n, tr[r].loc);
    forall m: nat | i < m < n && WriteAt(tr, out, m, tr[r].loc)
      ensures tr[out[m]].tid == tr[r].tid || tr[out[m]].tid == tr[w].tid
    {
      ThirdOutside(tr, out, i, m, n);
    }
    forall m: nat | m < n
      ensures w in out[..m] <==> i < m
    {
      InPrefix(tr, out, i, m);
    }
  }

  /**
   * In a run whose clocks stay settled, the order is complete, and a read sees what it observed in the trace unless
   * a write of its own thread or of the writer's thread comes in between: writes of others never do.
   */
  lemma ReadsSee(tr: ScTrace, threads: nat, plan: seq<nat>)
    requires Complete(tr, threads) && Regular(tr) && SettledTo(tr, threads, plan, |tr|)
    ensures var out := RunTo(tr, threads, plan, |tr|).out;
            && Interleaving(tr, out)
            && forall n: nat {:trigger Sees(tr, out, n)} ::
                 n < |tr| && tr[out[n]].read ==> (Sees(tr, out, n) <==> !Shadowed(tr, out, n))
  {
    hide Complete, RunTo, SettledTo, Regular, Sees, Shadowed, Ordered, FollowsFirst, ThirdFirst, Past, Forced;
    var g := RunTo(tr, threads, plan, |tr|);
    var out := g.out;
    RunRespected(tr, threads, plan, |tr|);
    OutOrdered(tr, threads, g);
    AllEmitted(tr, out);
    forall n: nat | n < |tr| && tr[out[n]].read
      ensures Sees(tr, out, n) <==> !Shadowed(tr, out, n)
    {
      SeesUnshadowed(tr, threads, out, n);
    }
  }

  lemma OutOrdered(tr: ScTrace, threads: nat, g: Gen)
    requires GenOk(tr, threads, g)
    ensures Ordered(tr, g.out) && forall i {:trigger g.out[i]} :: 0 <= i < |g.out| ==> g.out[i] < |tr|
  {
  }

  /** An order as long as the trace holds all of it. */
  lemma AllEmitted(tr: ScTrace, out: seq<nat>)
    requires Ordered(tr, out) && |out| == |tr|
    ensures Interleaving(tr, out)
  {
    forall a: nat | a < |tr|
      ensures a in out
    {
      if a !in out {
        var r := OrderedSet(tr, out, |out|);
        assert out[..|out|] == out;
        MissingOne(r, |tr|, a);
      }
    }
  }

  lemma MissingOne(r: set<nat>, n: nat, a: nat)
    requires (forall x: nat {:trigger x in r} :: x in r ==> x < n) && a < n && a !in r
    ensures |r| < n
  {
    SubsetOfBelow(r + {a}, n);
  }

  /**
   * Of the writes to a read's location by its own thread or the writer's, other than the one it observes, the
   * writer's are earlier than that one and its own are not earlier than the read.
   */
  ghost predicate Plain(tr: ScTrace) {
    forall r: nat, x: nat {:trigger tr[r], tr[x]} ::
      r < |tr| && x < |tr| && tr[r].read && tr[r].rf < |tr| && tr[x].write && tr[x].loc == tr[r].loc && x != tr[r].rf
        && (tr[x].tid == tr[r].tid || tr[x].tid == tr[tr[r].rf].tid)
      ==> (tr[x].tid == tr[tr[r].rf].tid && x < tr[r].rf) || (tr[x].tid == tr[r].tid && r <= x)
  }

  lemma PlainOpen(tr: ScTrace, out: seq<nat>, n: nat)
    requires Ordered(tr, out) && Plain(tr) && n < |out|
    ensures !Shadowed(tr, out, n)
  {
    var r := out[n];
    if tr[r].read && tr[r].rf < |tr| {
      forall m: nat | m < n && WriteAt(tr, out, m, tr[r].loc) && tr[r].rf in out[..m]
        ensures tr[out[m]].tid != tr[r].tid && tr[out[m]].tid != tr[tr[r].rf].tid
      {
      }
    }
  }

  /** Without such writes the order of a settled run is sequentially consistent. */
  lemma PlainConsistent(tr: ScTrace, threads: nat, plan: seq<nat>)
    requires Complete(tr, threads) && Regular(tr) && SettledTo(tr, threads, plan, |tr|) && Plain(tr)
    ensures Consistent(tr, RunTo(tr, threads, plan, |tr|).out)
  {
    hide Complete, RunTo, SettledTo, Regular, Shadowed, Plain;
    var out := RunTo(tr, threads, plan, |tr|).out;
    ReadsSee(tr, threads, plan);
    forall n: nat | n < |out|
      ensures Sees(tr, out, n)
    {
      PlainOpen(tr, out, n);
    }
  }

  /**
   * A condition on the trace: reads look back, no late third write is reached from one whose clock may still grow,
   * and neither the reader's nor the writer's thread writes in between. If the search ends without a cycle, its order
   * is sequentially consistent.
   */
  lemma TraceConsistent(tr: ScTrace, threads: nat, plan: seq<nat>)
    requires Complete(tr, threads) && Regular(tr) && ReadsBack(tr) && (AllLate(tr) || Apart(tr)) && Plain(tr)
    requires !RunTo(tr, threads, plan, |tr|).s.cyclic
    ensures Consistent(tr, RunTo(tr, threads, plan, |tr|).out)
  {
    hide Complete, RunTo, Regular, Apart, AllLate, ReadsBack, Plain, Consistent, SettledTo;
    RunsSettle(tr, threads, plan, |tr|);
    PlainConsistent(tr, threads, plan);
  }
}
