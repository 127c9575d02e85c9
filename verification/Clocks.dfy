/** Clock vectors and the happens-before relation they stand for. */
module Clocks {

  /** One entry per thread; a missing entry counts as 0. */
  type Clock = seq<nat>

  function At(c: Clock, tid: nat): nat {
    if tid < |c| then c[tid] else 0
  }

  function Max(a: nat, b: nat): nat {
    if a < b then b else a
  }

  /** The clock of a new action: its parent's, with its own sequence number. */
  function Create(parent: Clock, tid: nat, seqNumber: nat): (c: Clock)
    ensures |c| == Max(|parent|, tid + 1)
    ensures forall t: nat :: At(c, t) == if t == tid then seqNumber else At(parent, t)
  {
    seq(Max(|parent|, tid + 1), i requires 0 <= i => if i == tid then seqNumber else At(parent, i))
  }

  /** Entrywise maximum. */
  function Join(c: Clock, d: Clock): (r: Clock)
    ensures |r| == Max(|c|, |d|)
    ensures forall t: nat :: At(r, t) == Max(At(c, t), At(d, t))
  {
    seq(Max(|c|, |d|), i requires 0 <= i => Max(At(c, i), At(d, i)))
  }

  class ClockVector {
    var clock: array<nat>

    ghost function Value(): Clock
      reads this, clock
    {
      clock[..]
    }

    constructor (parent: ClockVector?, tid: nat, seqNumber: nat)
      ensures fresh(clock)
      ensures Value() == Create(if parent == null then [] else old(parent.Value()), tid, seqNumber)
    {
      var numThreads := tid + 1;
      if parent != null && parent.clock.Length > numThreads {
        numThreads := parent.clock.Length;
      }
      var c := new nat[numThreads](_ => 0);
      if parent != null {
        for i := 0 to parent.clock.Length
          invariant parent.clock[..] == old(parent.clock[..])
          invariant forall j :: 0 <= j < i ==> c[j] == parent.clock[j]
          invariant forall j :: i <= j < c.Length ==> c[j] == 0
        {
          c[i] := parent.clock[i];
        }
      }
      c[tid] := seqNumber;
      clock := c;
      ghost var p: Clock := if parent == null then [] else parent.clock[..];
      assert c[..] == Create(p, tid, seqNumber) by {
        forall i: nat | i < c.Length
          ensures c[i] == Create(p, tid, seqNumber)[i]
        {
          assert At(Create(p, tid, seqNumber), i) == if i == tid then seqNumber else At(p, i);
        }
      }
    }

    /** Takes the entrywise maximum; true if an entry grew. */
    method Merge(cv: ClockVector) returns (changed: bool)
      requires cv != this && cv.clock != clock
      modifies this, clock
      ensures Value() == Join(old(Value()), cv.Value()) && cv.Value() == old(cv.Value())
      ensures changed == exists t: nat :: At(old(Value()), t) < At(cv.Value(), t)
      ensures clock == old(clock) || fresh(clock)
    {
      changed := false;
      ghost var c, d := Value(), cv.Value();
      if cv.clock.Length > clock.Length {
        Grow(cv.clock.Length);
      }
      assert forall t: nat :: At(clock[..], t) == At(c, t);
      for i := 0 to cv.clock.Length
        modifies clock
        invariant cv.clock.Length <= clock.Length && cv.Value() == d
        invariant forall t: nat :: At(clock[..], t) == if t < i then Max(At(c, t), At(d, t)) else At(c, t)
        invariant changed == exists t: nat :: t < i && At(c, t) < At(d, t)
      {
        assert At(clock[..], i) == clock[i] && At(d, i) == cv.clock[i];
        if cv.clock[i] > clock[i] {
          assert At(c, i) < At(d, i);
          clock[i] := cv.clock[i];
          changed := true;
        }
      }
      assert clock[..] == Join(c, d) by {
        forall i: nat | i < clock.Length
          ensures clock[i] == Join(c, d)[i]
        {
          assert At(clock[..], i) == Max(At(c, i), At(d, i)) == At(Join(c, d), i);
        }
      }
    }

    method Grow(n: nat)
      requires n >= clock.Length
      modifies this
      ensures fresh(clock) && clock.Length == n
      ensures forall t: nat :: At(Value(), t) == At(old(Value()), t)
    {
      var c, src := new nat[n](_ => 0), clock;
      for i := 0 to src.Length
        invariant src[..] == old(clock[..])
        invariant forall j :: 0 <= j < i ==> c[j] == src[j]
        invariant forall j :: i <= j < n ==> c[j] == 0
      {
        c[i] := src[i];
      }
      clock := c;
    }

    method GetClock(tid: nat) returns (r: nat)
      ensures r == At(Value(), tid)
    {
      r := if tid < clock.Length then clock[tid] else 0;
    }

    /** Whether this clock has seen an action of the given thread. */
    method SynchronizedSince(tid: nat, seqNumber: nat) returns (b: bool)
      ensures b <==> tid < |Value()| && seqNumber <= Value()[tid]
      ensures seqNumber > 0 ==> (b <==> seqNumber <= At(Value(), tid))
    {
      b := tid < clock.Length && seqNumber <= clock[tid];
    }
  }
}
