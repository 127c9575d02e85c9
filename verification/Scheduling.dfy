/** The scheduler: a node's yield data filled in place, and the round-robin choice of the next thread. */
module Scheduling {
  import opened Arithmetic
  import opened Relations
  import opened GraphTheory
  import opened YieldTheory

  datatype Status = Disabled | Enabled | Sleeping

  predicate IsEnabled(enabled: seq<Status>, t: nat) {
    t < |enabled| && enabled[t] != Disabled
  }

  function Awake(enabled: seq<Status>): (r: seq<bool>)
    ensures |r| == |enabled| && forall t: nat {:trigger On(r, t)} :: On(r, t) == IsEnabled(enabled, t)
  {
    seq(|enabled|, t requires 0 <= t < |enabled| => enabled[t] != Disabled)
  }

  class Node {
    const parent: Node?
    const numThreads: nat
    const tid: nat
    const isYield: bool
    /** Who was enabled when the choice after this node was made. */
    const enabledArray: seq<Status>
    const yieldData: array2<Flags>

    ghost predicate Shape()
      reads this
    {
      yieldData.Length0 == numThreads && yieldData.Length1 == numThreads && tid < numThreads
    }

    /** The data of this node as a value. */
    ghost function Data(): (y: Yields)
      reads this, yieldData
      requires Shape()
      ensures |y| == numThreads && Square(y)
      ensures forall u: nat, v: nat :: u < numThreads && v < numThreads ==> y[u][v] == yieldData[u, v]
    {
      seq(numThreads, u requires 0 <= u < numThreads == yieldData.Length0 == yieldData.Length1 reads yieldData =>
        seq(numThreads, v requires 0 <= v < numThreads == yieldData.Length1
            && 0 <= u < yieldData.Length0 reads yieldData => yieldData[u, v]))
    }

    constructor (parent: Node?, numThreads: nat, tid: nat, isYield: bool, enabledArray: seq<Status>)
      requires tid < numThreads
      ensures Shape() && fresh(yieldData)
      ensures this.parent == parent && this.numThreads == numThreads && this.tid == tid
      ensures this.isYield == isYield && this.enabledArray == enabledArray
    {
      this.parent, this.numThreads, this.tid, this.isYield, this.enabledArray := parent, numThreads, tid, isYield,
        enabledArray;
      yieldData := new Flags[numThreads, numThreads]((_, _) => Flags(false, false, false, false));
    }

    method GetYieldData(tid1: nat, tid2: nat) returns (f: Flags)
      requires Shape()
      ensures f == Get(Data(), tid1, tid2)
    {
      if tid1 < numThreads && tid2 < numThreads {
        return yieldData[tid1, tid2];
      }
      return NEW_PAIR;
    }

    /** The turn that led to this node, given who is enabled now. */
    function TurnOf(enabled: seq<Status>): Turn
      requires parent != null
    {
      Turn(numThreads, tid, isYield, Awake(parent.enabledArray), Awake(enabled))
    }

    /** Computes the yield data of this node from its parent's. */
    method UpdateYield(enabled: seq<Status>)
      requires Shape() && (parent != null ==> parent.Shape() && parent.yieldData != yieldData)
      modifies yieldData
      ensures parent == null ==> forall u: nat, v: nat :: u < numThreads && v < numThreads ==> Data()[u][v] == NEW_PAIR
      ensures parent != null ==> IsNext(old(parent.Data()), TurnOf(enabled), Data())
    {
      if parent == null {
        forall u, v | 0 <= u < numThreads && 0 <= v < numThreads {
          yieldData[u, v] := NEW_PAIR;
        }
        return;
      }
      StepAll(enabled);
      if isYield {
        YieldRow(enabled);
      }
    }

    /** What the source does to every pair, row by row. */
    method StepAll(enabled: seq<Status>)
      requires Shape() && parent != null && parent.Shape() && parent.yieldData != yieldData
      modifies yieldData
      ensures forall u: nat, v: nat :: u < numThreads && v < numThreads ==>
                yieldData[u, v] == Stepped(Get(old(parent.Data()), u, v), TurnOf(enabled), u, v)
    {
      ghost var y := parent.Data();
      for u := 0 to numThreads
        invariant parent.Data() == y
        invariant forall a: nat, b: nat ::
                    a < u && b < numThreads ==> yieldData[a, b] == Stepped(Get(y, a, b), TurnOf(enabled), a, b)
      {
        StepRow(u, enabled);
      }
    }

    method StepRow(u: nat, enabled: seq<Status>)
      requires Shape() && parent != null && parent.Shape() && parent.yieldData != yieldData && u < numThreads
      modifies yieldData
      ensures forall b: nat ::
                b < numThreads ==> yieldData[u, b] == Stepped(Get(parent.Data(), u, b), TurnOf(enabled), u, b)
      ensures forall a: nat, b: nat ::
                a < numThreads && a != u && b < numThreads ==> yieldData[a, b] == old(yieldData[a, b])
      ensures parent.Data() == old(parent.Data())
    {
      FillRow(u, enabled);
      yieldData[u, tid] := yieldData[u, tid].(p := false, s := true);
    }

    method FillRow(u: nat, enabled: seq<Status>)
      requires Shape() && parent != null && parent.Shape() && parent.yieldData != yieldData && u < numThreads
      modifies yieldData
      ensures forall b: nat :: b < numThreads ==> yieldData[u, b] == LoopStep(Get(parent.Data(), u, b), u, b, enabled)
      ensures forall a: nat, b: nat ::
                a < numThreads && a != u && b < numThreads ==> yieldData[a, b] == old(yieldData[a, b])
      ensures parent.Data() == old(parent.Data())
    {
      for v := 0 to numThreads
        invariant forall b: nat :: b < v ==> yieldData[u, b] == LoopStep(Get(parent.Data(), u, b), u, b, enabled)
        invariant forall a: nat, b: nat ::
                    a < numThreads && a != u && b < numThreads ==> yieldData[a, b] == old(yieldData[a, b])
        invariant parent.Data() == old(parent.Data())
      {
        var state := parent.GetYieldData(u, v);
        if !IsEnabled(enabled, v) {
          state := state.(e := false);
          if u == tid && IsEnabled(parent.enabledArray, v) {
            state := state.(d := true);
          }
        }
        yieldData[u, v] := state;
      }
    }

    /** A pair after the inner loop. */
    ghost function LoopStep(f: Flags, u: nat, v: nat, enabled: seq<Status>): Flags
      requires parent != null
    {
      if IsEnabled(enabled, v) then f
         else Flags(false, f.d || (u == tid && IsEnabled(parent.enabledArray, v)), f.s, f.p)
    }

    /** The row of the yielding thread. */
    method YieldRow(enabled: seq<Status>)
      requires Shape() && parent != null
      modifies yieldData
      ensures forall v: nat ::
                v < numThreads ==> yieldData[tid, v] == Yielded(old(yieldData[tid, v]), TurnOf(enabled), v)
      ensures forall a: nat, b: nat ::
                a < numThreads && a != tid && b < numThreads ==> yieldData[a, b] == old(yieldData[a, b])
    {
      for v := 0 to numThreads
        invariant forall b: nat :: b < v ==> yieldData[tid, b] == Yielded(old(yieldData[tid, b]), TurnOf(enabled), b)
        invariant forall b: nat :: v <= b < numThreads ==> yieldData[tid, b] == old(yieldData[tid, b])
        invariant forall a: nat, b: nat ::
                    a < numThreads && a != tid && b < numThreads ==> yieldData[a, b] == old(yieldData[a, b])
      {
        var state := yieldData[tid, v];
        if (state.e || state.d) && !state.s {
          state := state.(p := true);
        }
        state := Flags(false, false, false, state.p);
        if IsEnabled(enabled, v) {
          state := state.(e := true);
        }
        yieldData[tid, v] := state;
      }
    }
  }

  // ----- the next thread -----

  /** t must wait for a thread that is enabled. */
  ghost predicate MustYield(y: Yields, enabled: seq<Status>, t: nat)
    requires Square(y)
  {
    exists j: nat :: j < |enabled| && enabled[j] != Disabled && Get(y, t, j).p
  }

  /** t may be picked: enabled, waiting for nobody if yields count, and of priority if that counts. */
  ghost predicate Eligible(y: Yields, enabled: seq<Status>, yieldOn: bool, urgent: bool, priority: seq<bool>, t: nat)
    requires Square(y)
  {
    && t < |enabled| && enabled[t] == Enabled
    && (yieldOn ==> !MustYield(y, enabled, t))
    && (urgent ==> On(priority, t))
  }

  class Scheduler {
    var enabled: seq<Status>
    /** The thread picked last. */
    var currThreadIndex: nat

    constructor ()
      ensures enabled == [] && currThreadIndex == 0
    {
      enabled, currThreadIndex := [], 0;
    }

    method SetEnabled(t: nat, status: Status)
      modifies this`enabled
      ensures |enabled| == if t < |old(enabled)| then |old(enabled)| else t + 1
      ensures enabled[t] == status
      ensures forall i ::
                0 <= i < |enabled| && i != t ==> enabled[i] == if i < |old(enabled)| then old(enabled)[i] else Disabled
    {
      if t >= |enabled| {
        enabled := enabled + seq(t + 1 - |enabled|, _ => Disabled);
      }
      enabled := enabled[t := status];
    }

    method HasToWait(n: Node, t: nat) returns (bad: bool)
      requires n.Shape()
      ensures bad == MustYield(n.Data(), enabled, t)
    {
      for j := 0 to |enabled|
        invariant forall k: nat :: k < j ==> !(enabled[k] != Disabled && Get(n.Data(), t, k).p)
      {
        if enabled[j] != Disabled {
          var f := n.GetYieldData(t, j);
          if f.p {
            return true;
          }
        }
      }
      return false;
    }

    method Urgent(fairWindow: nat, priority: seq<bool>) returns (urgent: bool)
      ensures urgent <==> fairWindow != 0 && exists t: nat :: t < |enabled| && On(priority, t) && enabled[t] != Disabled
    {
      urgent := false;
      if fairWindow != 0 {
        for i := 0 to |enabled|
          invariant urgent <==> exists t: nat :: t < i && On(priority, t) && enabled[t] != Disabled
        {
          if i < |priority| && priority[i] && enabled[i] != Disabled {
            assert On(priority, i);
            urgent := true;
          }
        }
      }
    }

    /** The first thread after the last one, going round, that may be picked. */
    method SelectNextThread(n: Node, yieldOn: bool, fairWindow: nat, priority: seq<bool>) returns (next: Option<nat>)
      requires n.Shape()
      modifies this`currThreadIndex
      ensures var urgent := fairWindow != 0
              && exists t: nat :: t < |enabled| && On(priority, t) && enabled[t] != Disabled;
              match next
              case Some(t) =>
                && Eligible(n.Data(), enabled, yieldOn, urgent, priority, t) && currThreadIndex == t
                && forall u: nat {:trigger InTurn(old(currThreadIndex), u, t, |enabled|)} ::
                     u < |enabled| && InTurn(old(currThreadIndex), u, t, |enabled|) ==>
                       !Eligible(n.Data(), enabled, yieldOn, urgent, priority, u)
              case None =>
                && (forall t: nat :: !Eligible(n.Data(), enabled, yieldOn, urgent, priority, t))
                && currThreadIndex == LastLooked(old(currThreadIndex), |enabled|)
    {
      hide Turned, Square, MustYield, On, InTurn;
      var old_ := currThreadIndex;
      var urgent := Urgent(fairWindow, priority);
      ghost var y := n.Data();
      for i := 0 to |enabled|
        invariant forall k: nat {:trigger Turned(old_, k, |enabled|)} ::
                    k < i ==> !Eligible(y, enabled, yieldOn, urgent, priority, Turned(old_, k, |enabled|))
        invariant i > 0 ==> currThreadIndex == Turned(old_, i - 1, |enabled|)
        invariant i == 0 ==> currThreadIndex == old_
      {
        currThreadIndex := Turned(old_, i, |enabled|);
        var bad := false;
        if yieldOn {
          bad := HasToWait(n, currThreadIndex);
        }
        if !bad && enabled[currThreadIndex] == Enabled && (!urgent || On(priority, currThreadIndex)) {
          forall u: nat | u < |enabled| && InTurn(old_, u, currThreadIndex, |enabled|)
            ensures !Eligible(y, enabled, yieldOn, urgent, priority, u)
          {
            var k := TurnBefore(old_, u, i, |enabled|);
          }
          return Some(currThreadIndex);
        }
      }
      forall t: nat
        ensures !Eligible(y, enabled, yieldOn, urgent, priority, t)
      {
        if t < |enabled| {
          var k := TurnFor(old_, t, |enabled|);
        }
      }
      LastTurn(old_, |enabled|);
      return None;
    }
  }

  /** The k-th thread looked at. */
  function Turned(start: nat, k: nat, n: nat): (t: nat)
    requires n > 0
    ensures t < n
  {
    (start + k + 1) % n
  }

  /** The order in which threads are looked at: those after the last one, then the others, ending with it. */
  ghost predicate InTurn(start: nat, a: nat, b: nat, n: nat)
    requires n > 0
  {
    var last := start % n;
    if (a > last) == (b > last) then a < b else a > last
  }

  /** Having gone round once, the last thread is looked at. */
  ghost function LastLooked(start: nat, n: nat): nat {
    if n == 0 then start else start % n
  }

  /** When a thread is looked at. */
  ghost function TurnOf(start: nat, t: nat, n: nat): int
    requires n > 0
  {
    var last := start % n;
    if t > last then t - last - 1 else t + n - last - 1
  }

  lemma TurnOfIs(start: nat, t: nat, n: nat)
    requires t < n
    ensures 0 <= TurnOf(start, t, n) < n && Turned(start, TurnOf(start, t, n), n) == t
  {
    var q, last := start / n, start % n;
    DivMod(start, n);
    if t > last {
      Remainder(start + TurnOf(start, t, n) + 1, n, q, t);
    } else {
      Distribute(q, -1, n);
      Remainder(start + TurnOf(start, t, n) + 1, n, q + 1, t);
    }
  }

  /** Every thread gets looked at. */
  lemma TurnFor(start: nat, t: nat, n: nat) returns (k: nat)
    requires t < n
    ensures k < n && Turned(start, k, n) == t
  {
    TurnOfIs(start, t, n);
    k := TurnOf(start, t, n);
  }

  /** No two looks are at the same thread. */
  lemma TurnedOnce(start: nat, j: nat, k: nat, n: nat)
    requires j < n && k < n && Turned(start, j, n) == Turned(start, k, n)
    ensures j == k
  {
    var a, b := start + j + 1, start + k + 1;
    DivMod(a, n);
    DivMod(b, n);
    var p, q := a / n, b / n;
    Distribute(p, q, n);
    Distribute(q, p, n);
    if p > q {
      Times(p - q, n);
    } else if p < q {
      Times(q - p, n);
    }
  }

  lemma TurnBefore(start: nat, u: nat, i: nat, n: nat) returns (k: nat)
    requires i < n && u < n && InTurn(start, u, Turned(start, i, n), n)
    ensures k < i && Turned(start, k, n) == u
  {
    var t := Turned(start, i, n);
    TurnOfIs(start, u, n);
    TurnOfIs(start, t, n);
    TurnedOnce(start, TurnOf(start, t, n), i, n);
    k := TurnOf(start, u, n);
  }

  lemma LastTurn(start: nat, n: nat)
    ensures n > 0 ==> Turned(start, n - 1, n) == LastLooked(start, n)
  {
    if n > 0 {
      DivMod(start, n);
      Distribute(start / n, -1, n);
      Remainder(start + n, n, start / n + 1, start % n);
    }
  }

  /**
   * With yields on, no fairness window and nobody asleep, some thread can be picked whenever one is
   * enabled: waiting never goes round.
   */
  lemma SomeoneCanRun(y: Yields, enabled: seq<Status>, priority: seq<bool>)
    requires Square(y) && Acyclic(Waits(y)) && (forall t :: 0 <= t < |enabled| ==> enabled[t] != Sleeping)
    requires exists t: nat :: t < |enabled| && enabled[t] == Enabled
    ensures exists t: nat :: Eligible(y, enabled, true, false, priority, t)
  {
    var T := set t: nat | t < |enabled| && enabled[t] == Enabled;
    var some: nat :| some < |enabled| && enabled[some] == Enabled;
    assert some in T;
    var x := SinkExists(Waits(y), |enabled|, T);
    forall j: nat | j < |enabled| && enabled[j] != Disabled
      ensures !Get(y, x, j).p
    {
      assert j in T && (x, j) !in Waits(y);
    }
    assert Eligible(y, enabled, true, false, priority, x);
  }

  /** So in every run: nobody can be picked only if nobody is enabled. */
  lemma StuckOnlyIfDone(ys: seq<Yields>, turns: seq<Turn>, i: nat, enabled: seq<Status>, priority: seq<bool>)
    requires IsRun(ys, turns) && i < |ys| && forall t :: 0 <= t < |enabled| ==> enabled[t] != Sleeping
    ensures Square(ys[i])
    ensures (forall t: nat :: !Eligible(ys[i], enabled, true, false, priority, t)) <==>
              (forall t: nat :: t < |enabled| ==> enabled[t] == Disabled)
  {
    RunAcyclic(ys, turns, i);
    if exists t: nat :: t < |enabled| && enabled[t] == Enabled {
      SomeoneCanRun(ys[i], enabled, priority);
    }
  }

  /** With yields on, a thread may be picked exactly if it owes no thread a turn that is not disabled. */
  lemma PickedExactly(ys: seq<Yields>, turns: seq<Turn>, k: nat, t: nat, enabled: seq<Status>, urgent: bool,
                      priority: seq<bool>)
    requires IsRun(ys, turns) && k < |ys|
    ensures Square(ys[k])
    ensures Eligible(ys[k], enabled, true, urgent, priority, t) <==>
              && t < |enabled| && enabled[t] == Enabled && (urgent ==> On(priority, t))
              && forall v: nat :: v < |enabled| && enabled[v] != Disabled ==> !Owes(turns, t, v, k)
  {
    hide IsRun, Owes;
    RunSize(ys, turns, k);
    forall v: nat
      ensures Get(ys[k], t, v).p <==> Owes(turns, t, v, k)
    {
      WaitsExactly(ys, turns, k, t, v);
    }
  }

  /**
   * If v stayed enabled without running between two yields of t, then t is not picked again until v
   * has run or is no longer enabled.
   */
  lemma StarvedComesFirst(ys: seq<Yields>, turns: seq<Turn>, i: nat, j: nat, k: nat, t: nat, v: nat,
                          enabled: seq<Status>, urgent: bool, priority: seq<bool>)
    requires IsRun(ys, turns) && 0 < i < j <= k < |ys| && Starves(turns, t, v, i, j)
    requires YieldsBy(turns[i], t) && YieldsBy(turns[j], t) && Together(turns, t, v, j, k) && NotRun(turns, v, j, k)
    requires IsEnabled(enabled, v)
    ensures Square(ys[k]) && !Eligible(ys[k], enabled, true, urgent, priority, t)
  {
    MustWait(ys, turns, i, j, k, t, v);
    assert Get(ys[k], t, v).p;
  }
}
