/** Which action comes next in a sequentially consistent order, and what a choice entails. */
module ScChoices {
  import opened GraphTheory
  import opened Clocks
  import opened ScTheory

  /** What is left of every thread's actions. */
  type Lists = seq<seq<nat>>

  ghost predicate ListsOk(tr: ScTrace, lists: Lists) {
    forall t {:trigger lists[t]} :: 0 <= t < |lists| ==> ListOk(tr, lists[t], t)
  }

  ghost predicate ListOk(tr: ScTrace, l: seq<nat>, t: nat) {
    forall k {:trigger l[k]} :: 0 <= k < |l| ==> l[k] < |tr| && tr[l[k]].tid == t
  }

  // ----- the candidates -----

  /** Another thread's first action comes before one with this clock. */
  predicate Blocked(lists: Lists, c: Clock, t: nat) {
    exists i: nat :: i < |lists| && i != t && lists[i] != [] && Since(c, i, lists[i][0])
  }

  /** The first action left of some thread, from t on. */
  ghost predicate Front(lists: Lists, t: nat, a: nat) {
    exists i :: t <= i < |lists| && lists[i] != [] && lists[i][0] == a
  }

  function Ready(lists: Lists, clocks: seq<Clock>, t: nat): (r: seq<nat>)
    requires t <= |lists|
             && (forall i {:trigger lists[i]} :: 0 <= i < |lists| && lists[i] != [] ==> lists[i][0] < |clocks|)
    ensures forall k {:trigger r[k]} :: 0 <= k < |r| ==> Front(lists, t, r[k])
    ensures |r| <= |lists| - t
    ensures forall i: nat :: t <= i < |lists| && lists[i] != [] && !Blocked(lists, clocks[lists[i][0]], i) ==> r != []
    decreases |lists| - t
  {
    if t == |lists| then []
    else
      var rest := Ready(lists, clocks, t + 1);
      if lists[t] != [] && !Blocked(lists, clocks[lists[t][0]], t) then [lists[t][0]] + rest else rest
  }

  /** No other front comes before any of these. */
  ghost predicate Free(tr: ScTrace, lists: Lists, clocks: seq<Clock>, r: seq<nat>)
    requires |clocks| == |tr|
  {
    forall k {:trigger r[k]} :: 0 <= k < |r| ==> r[k] < |tr| && !Blocked(lists, clocks[r[k]], tr[r[k]].tid)
  }

  lemma {:induction false} ReadyFree(tr: ScTrace, lists: Lists, clocks: seq<Clock>, t: nat)
    requires ListsOk(tr, lists) && |clocks| == |tr| && t <= |lists|
    requires forall i {:trigger lists[i]} :: 0 <= i < |lists| && lists[i] != [] ==> lists[i][0] < |clocks|
    ensures Free(tr, lists, clocks, Ready(lists, clocks, t))
    decreases |lists| - t
  {
    hide Blocked;
    if t < |lists| {
      ReadyFree(tr, lists, clocks, t + 1);
      assert ListOk(tr, lists[t], t);
    }
  }

  function ClocksOf(s: Vectors): (r: seq<Clock>)
    ensures |r| == |s.cvs| && forall a :: 0 <= a < |s.cvs| && s.cvs[a].Some? ==> r[a] == s.cvs[a].value
  {
    seq(|s.cvs|, a requires 0 <= a < |s.cvs| => if s.cvs[a].Some? then s.cvs[a].value else [])
  }

  function HbOf(tr: ScTrace): (r: seq<Clock>)
    ensures |r| == |tr| && forall a :: 0 <= a < |tr| ==> r[a] == tr[a].hb
  {
    seq(|tr|, a requires 0 <= a < |tr| => tr[a].hb)
  }

  lemma Fronts(tr: ScTrace, lists: Lists)
    requires ListsOk(tr, lists)
    ensures forall i {:trigger lists[i]} :: 0 <= i < |lists| && lists[i] != [] ==> lists[i][0] < |tr|
  {
    forall i | 0 <= i < |lists| && lists[i] != []
      ensures lists[i][0] < |tr|
    {
      assert ListOk(tr, lists[i], i);
    }
  }

  /** Fronts that no other front precedes; if the computed clocks block them all, happens-before decides. */
  function NextActions(tr: ScTrace, lists: Lists, s: Vectors): (r: seq<nat>)
    requires ListsOk(tr, lists) && |s.cvs| == |tr|
    ensures |r| <= |lists| && forall k {:trigger r[k]} :: 0 <= k < |r| ==> Front(lists, 0, r[k])
  {
    Fronts(tr, lists);
    var a := Ready(lists, ClocksOf(s), 0);
    if a != [] then a else Ready(lists, HbOf(tr), 0)
  }

  /** Happens-before clocks know only earlier actions of other threads. */
  ghost predicate HbForward(tr: ScTrace) {
    forall a, t: nat {:trigger At(tr[a].hb, t)} :: 0 <= a < |tr| && t != tr[a].tid ==> At(tr[a].hb, t) <= a
  }

  lemma {:induction false} EarliestFront(tr: ScTrace, lists: Lists, n: nat) returns (m: nat)
    requires ListsOk(tr, lists) && n <= |lists| && exists i :: 0 <= i < n && lists[i] != []
    ensures m < n && lists[m] != [] && forall i :: 0 <= i < n && lists[i] != [] ==> lists[m][0] <= lists[i][0]
    decreases n
  {
    if exists i :: 0 <= i < n - 1 && lists[i] != [] {
      m := EarliestFront(tr, lists, n - 1);
      if lists[n - 1] != [] && lists[n - 1][0] < lists[m][0] {
        m := n - 1;
      }
    } else {
      m := n - 1;
    }
  }

  /** As long as anything is left, there is a candidate. */
  lemma SomeNext(tr: ScTrace, lists: Lists, s: Vectors)
    requires ListsOk(tr, lists) && |s.cvs| == |tr| && HbForward(tr) && exists i :: 0 <= i < |lists| && lists[i] != []
    ensures NextActions(tr, lists, s) != []
  {
    Fronts(tr, lists);
    var m := EarliestFront(tr, lists, |lists|);
    var a := lists[m][0];
    assert ListOk(tr, lists[m], m) && tr[a].tid == m;
    forall i: nat | i < |lists| && i != m && lists[i] != []
      ensures !Since(tr[a].hb, i, lists[i][0])
    {
      assert At(tr[a].hb, i) <= a;
    }
    assert !Blocked(lists, HbOf(tr)[a], m);
  }

  // ----- the choice among candidates -----

  /** The earliest candidate that is not a write. */
  function NonWrite(tr: ScTrace, arr: seq<nat>, k: nat): (r: Option<nat>)
    requires k <= |arr| && forall i {:trigger arr[i]} :: 0 <= i < |arr| ==> arr[i] < |tr|
    ensures r.Some? ==> r.value in arr && !tr[r.value].write
    ensures forall i :: 0 <= i < k && !tr[arr[i]].write ==> r.Some? && r.value <= arr[i]
  {
    if k == 0 then None
    else
      var r := NonWrite(tr, arr, k - 1);
      if !tr[arr[k - 1]].write && (r.None? || r.value > arr[k - 1]) then Some(arr[k - 1]) else r
  }

  /** A later write of the location is still to come in this list, and is not already after act. */
  predicate ConflictIn(tr: ScTrace, s: Vectors, act: nat, l: seq<nat>, k: nat)
    requires act < |tr| == |s.cvs| && k <= |l| && forall i {:trigger l[i]} :: 0 <= i < |l| ==> l[i] < |tr|
    decreases |l| - k
  {
    if k == |l| then false
    else if !tr[l[k]].write then ConflictIn(tr, s, act, l, k + 1)
    else if s.cvs[l[k]].Some? && Since(s.cvs[l[k]].value, tr[act].tid, act) then false
    else if tr[l[k]].loc == tr[act].loc then true
    else ConflictIn(tr, s, act, l, k + 1)
  }

  predicate Conflicts(tr: ScTrace, lists: Lists, s: Vectors, act: nat)
    requires act < |tr| == |s.cvs| && ListsIn(tr, lists)
  {
    exists i: nat :: i < |lists| && i != tr[act].tid && ConflictIn(tr, s, act, lists[i], 0)
  }

  predicate ListsIn(tr: ScTrace, lists: Lists) {
    forall i, k {:trigger lists[i][k]} :: 0 <= i < |lists| && 0 <= k < |lists[i]| ==> lists[i][k] < |tr|
  }

  lemma ListsAreIn(tr: ScTrace, lists: Lists)
    requires ListsOk(tr, lists)
    ensures ListsIn(tr, lists)
  {
    forall i, k | 0 <= i < |lists| && 0 <= k < |lists[i]|
      ensures lists[i][k] < |tr|
    {
      assert ListOk(tr, lists[i], i);
    }
  }

  /** The m-th action writes the location, and no write from the k-th up to it has act in its clock. */
  ghost predicate OpenWrite(tr: ScTrace, s: Vectors, act: nat, l: seq<nat>, k: nat, m: nat)
    requires act < |tr| == |s.cvs| && forall i {:trigger l[i]} :: 0 <= i < |l| ==> l[i] < |tr|
  {
    && k <= m < |l| && tr[l[m]].write && tr[l[m]].loc == tr[act].loc
    && forall j {:trigger l[j]} :: k <= j <= m && tr[l[j]].write ==> !Named(s, l[j], tr[act].tid, act)
  }

  lemma {:induction false} ConflictInExactly(tr: ScTrace, s: Vectors, act: nat, l: seq<nat>, k: nat)
    requires act < |tr| == |s.cvs| && k <= |l| && forall i {:trigger l[i]} :: 0 <= i < |l| ==> l[i] < |tr|
    ensures ConflictIn(tr, s, act, l, k) <==> exists m: nat :: OpenWrite(tr, s, act, l, k, m)
    decreases |l| - k
  {
    if k < |l| {
      var k' := k + 1;
      ConflictInExactly(tr, s, act, l, k');
      if tr[l[k]].write && !Named(s, l[k], tr[act].tid, act) && tr[l[k]].loc == tr[act].loc {
        assert OpenWrite(tr, s, act, l, k, k);
      } else if !tr[l[k]].write || !Named(s, l[k], tr[act].tid, act) {
        forall m: nat
          ensures OpenWrite(tr, s, act, l, k, m) <==> OpenWrite(tr, s, act, l, k', m)
        {
        }
      }
    }
  }

  /**
   * There is a conflict exactly if another thread still has a write of the location to come, and no write of that
   * thread up to it has act in its clock.
   */
  lemma ConflictsExactly(tr: ScTrace, lists: Lists, s: Vectors, act: nat)
    requires act < |tr| == |s.cvs| && ListsIn(tr, lists)
    ensures Conflicts(tr, lists, s, act) <==>
              exists i: nat, m: nat {:trigger OpenWrite(tr, s, act, lists[i], 0, m)} ::
                i < |lists| && i != tr[act].tid && OpenWrite(tr, s, act, lists[i], 0, m)
  {
    hide ConflictIn, OpenWrite;
    forall i: nat | i < |lists|
      ensures ConflictIn(tr, s, act, lists[i], 0) <==> exists m: nat :: OpenWrite(tr, s, act, lists[i], 0, m)
    {
      ConflictInExactly(tr, s, act, lists[i], 0);
    }
  }

  /** The earliest candidate without such a conflict. */
  function NonConflict(tr: ScTrace, lists: Lists, s: Vectors, arr: seq<nat>, k: nat): (r: Option<nat>)
    requires k <= |arr| && (forall i {:trigger arr[i]} :: 0 <= i < |arr| ==> arr[i] < |tr|) && |s.cvs| == |tr|
             && ListsIn(tr, lists)
    ensures r.Some? ==> r.value in arr && r.value < |tr| && !Conflicts(tr, lists, s, r.value)
    ensures forall i :: 0 <= i < k && !Conflicts(tr, lists, s, arr[i]) ==> r.Some? && r.value <= arr[i]
  {
    if k == 0 then None
    else
      var r := NonConflict(tr, lists, s, arr, k - 1);
      if !Conflicts(tr, lists, s, arr[k - 1]) && (r.None? || r.value > arr[k - 1]) then Some(arr[k - 1]) else r
  }

  /** The candidate that can be taken without a choice, if there is one. */
  function Prune(tr: ScTrace, lists: Lists, s: Vectors, arr: seq<nat>): (r: Option<nat>)
    requires arr != [] && (forall i {:trigger arr[i]} :: 0 <= i < |arr| ==> arr[i] < |tr|) && |s.cvs| == |tr|
             && ListsIn(tr, lists)
    ensures r.Some? ==> r.value in arr
  {
    if |arr| == 1 then Some(arr[0])
    else
      var nw := NonWrite(tr, arr, |arr|);
      if nw.Some? then nw else NonConflict(tr, lists, s, arr, |arr|)
  }

  /** A candidate of the kind that needs no choice: not a write, or if all are writes, one without a conflict. */
  ghost predicate Choiceless(tr: ScTrace, lists: Lists, s: Vectors, arr: seq<nat>, a: nat)
    requires (forall i {:trigger arr[i]} :: 0 <= i < |arr| ==> arr[i] < |tr|) && |s.cvs| == |tr| && ListsIn(tr, lists)
  {
    a in arr && if forall i {:trigger arr[i]} :: 0 <= i < |arr| ==> tr[arr[i]].write
                then forall i: nat, m: nat {:trigger OpenWrite(tr, s, a, lists[i], 0, m)} ::
                       i < |lists| && i != tr[a].tid ==> !OpenWrite(tr, s, a, lists[i], 0, m)
                else !tr[a].write
  }

  /** A single candidate is taken, and of several the earliest that needs no choice, if there is one. */
  lemma PrunedExactly(tr: ScTrace, lists: Lists, s: Vectors, arr: seq<nat>)
    requires arr != [] && (forall i {:trigger arr[i]} :: 0 <= i < |arr| ==> arr[i] < |tr|) && |s.cvs| == |tr|
             && ListsIn(tr, lists)
    ensures var r := Prune(tr, lists, s, arr);
            if |arr| == 1 then r == Some(arr[0])
            else match r
              case Some(a) => Choiceless(tr, lists, s, arr, a)
                && forall b: nat {:trigger Choiceless(tr, lists, s, arr, b)} ::
                     Choiceless(tr, lists, s, arr, b) ==> a <= b
              case None => forall b: nat {:trigger Choiceless(tr, lists, s, arr, b)} ::
                !Choiceless(tr, lists, s, arr, b)
  {
    hide OpenWrite, Conflicts;
    forall b: nat | b in arr
      ensures Conflicts(tr, lists, s, b) <==>
                exists i: nat, m: nat {:trigger OpenWrite(tr, s, b, lists[i], 0, m)} ::
                  i < |lists| && i != tr[b].tid && OpenWrite(tr, s, b, lists[i], 0, m)
    {
      ConflictsExactly(tr, lists, s, b);
    }
  }

  // ----- what a choice entails -----

  /** The first write of act's location still to come in a thread comes after act, if it does not already. */
  function AfterAct(tr: ScTrace, s: Vectors, act: nat, l: seq<nat>, k: nat): (p: (Vectors, bool))
    requires act < |tr| == |s.cvs| && k <= |l| && (forall i {:trigger l[i]} :: 0 <= i < |l| ==> l[i] < |tr|)
             && AllSet(s)
    ensures |p.0.cvs| == |tr| && AllSet(p.0)
    decreases |l| - k
  {
    if k == |l| then (s, false)
    else if !tr[l[k]].write then AfterAct(tr, s, act, l, k + 1)
    else if Since(s.cvs[l[k]].value, tr[act].tid, act) then (s, false)
    else if tr[l[k]].loc == tr[act].loc then (Merge(tr, s, l[k], act).0, true)
    else AfterAct(tr, s, act, l, k + 1)
  }

  function UpdateConstraints(tr: ScTrace, lists: Lists, s: Vectors, changed: bool, act: nat,
                             i: nat): (p: (Vectors, bool))
    requires act < |tr| == |s.cvs| && ListsIn(tr, lists) && AllSet(s) && i <= |lists|
    ensures |p.0.cvs| == |tr| && AllSet(p.0)
    decreases |lists| - i
  {
    if i == |lists| then (s, changed)
    else if i == tr[act].tid then UpdateConstraints(tr, lists, s, changed, act, i + 1)
    else
      var p := AfterAct(tr, s, act, lists[i], 0);
      UpdateConstraints(tr, lists, p.0, changed || p.1, act, i + 1)
  }

  lemma {:induction false} AfterActStep(tr: ScTrace, s: Vectors, act: nat, l: seq<nat>, k: nat, threads: nat)
    requires act < |tr| == |s.cvs| && k <= |l| && (forall i {:trigger l[i]} :: 0 <= i < |l| ==> l[i] < |tr|)
             && AllSet(s) && Bounded(s, threads)
    ensures Grew(s, AfterAct(tr, s, act, l, k).0) && Bounded(AfterAct(tr, s, act, l, k).0, threads)
    decreases |l| - k
  {
    GrewRefl(s);
    if k < |l| {
      if tr[l[k]].write && tr[l[k]].loc == tr[act].loc {
        MergeStep(tr, s, l[k], act, threads);
      }
      AfterActStep(tr, s, act, l, k + 1, threads);
    }
  }

  lemma {:induction false} UpdateStep(tr: ScTrace, lists: Lists, s: Vectors, changed: bool, act: nat, i: nat,
                                      threads: nat)
    requires act < |tr| == |s.cvs| && ListsIn(tr, lists) && AllSet(s) && i <= |lists| && Bounded(s, threads)
    ensures var p := UpdateConstraints(tr, lists, s, changed, act, i).0; Grew(s, p) && Bounded(p, threads)
    decreases |lists| - i
  {
    hide Bounded, AfterAct;
    GrewRefl(s);
    if i < |lists| {
      if i == tr[act].tid {
        UpdateStep(tr, lists, s, changed, act, i + 1, threads);
      } else {
        var p := AfterAct(tr, s, act, lists[i], 0);
        AfterActStep(tr, s, act, lists[i], 0, threads);
        UpdateStep(tr, lists, p.0, changed || p.1, act, i + 1, threads);
        GrewTrans(s, p.0, UpdateConstraints(tr, lists, p.0, changed || p.1, act, i + 1).0);
      }
    }
  }
}
