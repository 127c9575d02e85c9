/** The search for a sequentially consistent order: choices, what a run of them emits, and rollback. */
module ScGeneration {
  import Arithmetic
  import Relations
  import opened GraphTheory
  import opened Clocks
  import opened ScTheory
  import opened ScPasses
  import opened ScChoices

  /** Remaining actions, clocks, how many choices have been made, and the order so far. */
  datatype Gen = Gen(lists: Lists, s: Vectors, used: nat, out: seq<nat>)

  ghost predicate GenOk(tr: ScTrace, threads: nat, g: Gen) {
    && |g.lists| == threads && ListsOk(tr, g.lists) && |g.s.cvs| == |tr| && AllSet(g.s) && Bounded(g.s, threads)
    && Split(tr, g.lists, g.out)
  }

  /** An order of some of the actions that keeps every thread's. */
  ghost predicate Ordered(tr: ScTrace, out: seq<nat>) {
    && (forall i {:trigger out[i]} :: 0 <= i < |out| ==> out[i] < |tr|)
    && (forall i, j {:trigger out[i], out[j]} ::
          0 <= i < j < |out| && tr[out[i]].tid == tr[out[j]].tid ==> out[i] < out[j])
  }

  ghost predicate Increasing(l: seq<nat>) {
    forall j, k {:trigger l[j], l[k]} :: 0 <= j < k < |l| ==> l[j] < l[k]
  }

  /** The action was emitted, or is left in its thread. */
  ghost predicate Somewhere(tr: ScTrace, lists: Lists, out: seq<nat>, a: nat) {
    a < |tr| && (a in out || (tr[a].tid < |lists| && a in lists[tr[a].tid]))
  }

  ghost predicate After(tr: ScTrace, l: seq<nat>, out: seq<nat>, t: nat) {
    forall i, k {:trigger out[i], l[k]} ::
      0 <= i < |out| && 0 <= k < |l| && out[i] < |tr| && tr[out[i]].tid == t ==> out[i] < l[k]
  }

  /** The order so far and what is left make up the trace, every thread's part in two. */
  ghost predicate Split(tr: ScTrace, lists: Lists, out: seq<nat>) {
    && Ordered(tr, out)
    && (forall t {:trigger lists[t]} :: 0 <= t < |lists| ==> Increasing(lists[t]) && After(tr, lists[t], out, t))
    && (forall a: nat {:trigger Somewhere(tr, lists, out, a)} :: a < |tr| ==> Somewhere(tr, lists, out, a))
  }

  // ----- the start -----

  /** The actions of a thread. */
  function ThreadList(tr: ScTrace, t: nat, n: nat): (l: seq<nat>)
    requires n <= |tr|
    ensures ListOk(tr, l, t) && Increasing(l) && forall k {:trigger l[k]} :: 0 <= k < |l| ==> l[k] < n
    ensures forall a :: 0 <= a < n && tr[a].tid == t ==> a in l
  {
    if n == 0 then []
    else
      var l := ThreadList(tr, t, n - 1);
      ListAppend(tr, l, t, n - 1);
      if tr[n - 1].tid == t then l + [n - 1] else l
  }

  lemma ListAppend(tr: ScTrace, l: seq<nat>, t: nat, a: nat)
    requires a < |tr| && ListOk(tr, l, t) && Increasing(l) && forall k {:trigger l[k]} :: 0 <= k < |l| ==> l[k] < a
    ensures tr[a].tid == t ==> ListOk(tr, l + [a], t) && Increasing(l + [a])
  {
  }

  function AllLists(tr: ScTrace, threads: nat): (ls: Lists)
    ensures |ls| == threads && ListsOk(tr, ls) && forall t :: 0 <= t < threads ==> ls[t] == ThreadList(tr, t, |tr|)
  {
    seq(threads, t requires 0 <= t => ThreadList(tr, t, |tr|))
  }

  function Unset(n: nat): (s: Vectors)
    ensures |s.cvs| == n && forall a :: 0 <= a < n ==> s.cvs[a].None?
  {
    Vectors(seq(n, _ => None), false)
  }

  lemma StartSplit(tr: ScTrace, threads: nat)
    requires Complete(tr, threads)
    ensures Split(tr, AllLists(tr, threads), [])
  {
    var lists := AllLists(tr, threads);
    forall a: nat | a < |tr|
      ensures Somewhere(tr, lists, [], a)
    {
      var t := tr[a].tid;
      assert lists[t] == ThreadList(tr, t, |tr|);
    }
  }

  function Start(tr: ScTrace, threads: nat): (g: Gen)
    requires Complete(tr, threads)
    ensures GenOk(tr, threads, g) && g.used == 0 && g.out == []
  {
    StartSplit(tr, threads);
    Gen(AllLists(tr, threads), Computed(tr, Unset(|tr|), true, threads), 0, [])
  }

  // ----- one step -----

  /** The action is the first left of its thread. */
  ghost predicate IsFront(tr: ScTrace, lists: Lists, a: nat) {
    a < |tr| && tr[a].tid < |lists| && lists[tr[a].tid] != [] && lists[tr[a].tid][0] == a
  }

  lemma NextFronts(tr: ScTrace, lists: Lists, s: Vectors, k: nat)
    requires ListsOk(tr, lists) && |s.cvs| == |tr| && k < |NextActions(tr, lists, s)|
    ensures IsFront(tr, lists, NextActions(tr, lists, s)[k])
  {
    hide NextActions;
    var arr := NextActions(tr, lists, s);
    assert Front(lists, 0, arr[k]);
    var i :| 0 <= i < |lists| && lists[i] != [] && lists[i][0] == arr[k];
    assert ListOk(tr, lists[i], i);
  }

  function Candidates(tr: ScTrace, threads: nat, g: Gen): (arr: seq<nat>)
    requires GenOk(tr, threads, g)
    ensures |arr| <= threads
            && forall k {:trigger arr[k]} :: 0 <= k < |arr| ==> arr[k] < |tr| && IsFront(tr, g.lists, arr[k])
    ensures ListsIn(tr, g.lists)
  {
    ListsAreIn(tr, g.lists);
    var arr := NextActions(tr, g.lists, g.s);
    assert forall k {:trigger arr[k]} :: 0 <= k < |arr| ==> IsFront(tr, g.lists, arr[k]) by {
      forall k | 0 <= k < |arr|
        ensures IsFront(tr, g.lists, arr[k])
      {
        NextFronts(tr, g.lists, g.s, k);
      }
    }
    arr
  }

  /** There are candidates, and none that can be taken without a choice. */
  predicate AtChoice(tr: ScTrace, threads: nat, g: Gen)
    requires GenOk(tr, threads, g)
  {
    var arr := Candidates(tr, threads, g);
    arr != [] && Prune(tr, g.lists, g.s, arr).None?
  }

  /** The action taken, given the number of the candidate where there is a choice. */
  function Picked(tr: ScTrace, threads: nat, g: Gen, choice: nat): (a: nat)
    requires GenOk(tr, threads, g) && Candidates(tr, threads, g) != []
    ensures IsFront(tr, g.lists, a)
  {
    var arr := Candidates(tr, threads, g);
    var p := Prune(tr, g.lists, g.s, arr);
    if p.Some? then p.value else if choice < |arr| then arr[choice] else arr[0]
  }

  function Pop(lists: Lists, t: nat): Lists
    requires t < |lists| && lists[t] != []
  {
    lists[t := lists[t][1..]]
  }

  lemma PopOk(tr: ScTrace, lists: Lists, a: nat)
    requires ListsOk(tr, lists) && IsFront(tr, lists, a)
    ensures ListsOk(tr, Pop(lists, tr[a].tid)) && ListsIn(tr, Pop(lists, tr[a].tid))
  {
    var t := tr[a].tid;
    var l := lists[t];
    assert ListOk(tr, l, t);
    assert ListOk(tr, l[1..], t);
    ListsAreIn(tr, Pop(lists, t));
  }

  lemma PopSplit(tr: ScTrace, lists: Lists, out: seq<nat>, a: nat)
    requires ListsOk(tr, lists) && Split(tr, lists, out) && IsFront(tr, lists, a)
    ensures Split(tr, Pop(lists, tr[a].tid), out + [a])
  {
    hide ListOk;
    var t := tr[a].tid;
    var l, lists', out' := lists[t], Pop(lists, t), out + [a];
    assert Increasing(l) && After(tr, l, out, t);
    assert l[0] == a;
    assert Increasing(l[1..]);
    forall u | 0 <= u < |lists'|
      ensures Increasing(lists'[u]) && After(tr, lists'[u], out', u)
    {
      assert Increasing(lists[u]) && After(tr, lists[u], out, u);
    }
    forall b: nat | b < |tr|
      ensures Somewhere(tr, lists', out', b)
    {
      assert Somewhere(tr, lists, out, b);
      if b !in out && b != a && tr[b].tid == t {
        var k :| 0 <= k < |l| && l[k] == b;
        assert l[1..][k - 1] == b;
      }
    }
  }

  /** Taking an action: it is emitted, its thread moves on, and what follows from the choice is worked out. */
  function Taken(tr: ScTrace, threads: nat, g: Gen, a: nat): (g': Gen)
    requires Complete(tr, threads) && GenOk(tr, threads, g) && IsFront(tr, g.lists, a)
    ensures GenOk(tr, threads, g') && g'.used == g.used && g'.out == g.out + [a]
  {
    hide Computed, UpdateConstraints, Split, Complete, Bounded;
    var lists := Pop(g.lists, tr[a].tid);
    PopOk(tr, g.lists, a);
    PopSplit(tr, g.lists, g.out, a);
    var p := UpdateConstraints(tr, lists, g.s, false, a, 0);
    UpdateStep(tr, lists, g.s, false, a, 0, threads);
    Gen(lists, if p.1 then Computed(tr, p.0, true, threads) else p.0, g.used, g.out + [a])
  }

  /** One step of a run that follows a plan of choices. */
  function Advance(tr: ScTrace, threads: nat, g: Gen, plan: seq<nat>): (g': Gen)
    requires Complete(tr, threads) && GenOk(tr, threads, g)
    ensures GenOk(tr, threads, g') && g'.used == g.used + (if AtChoice(tr, threads, g) then 1 else 0)
    ensures |g'.out| == |g.out| + (if Candidates(tr, threads, g) == [] then 0 else 1)
  {
    if Candidates(tr, threads, g) == [] then g
    else
      var g' := Taken(tr, threads, g, Picked(tr, threads, g, if g.used < |plan| then plan[g.used] else 0));
      if AtChoice(tr, threads, g) then g'.(used := g.used + 1) else g'
  }

  /** Where a plan leads in n steps. */
  function RunTo(tr: ScTrace, threads: nat, plan: seq<nat>, n: nat): (g: Gen)
    requires Complete(tr, threads)
    ensures GenOk(tr, threads, g) && |g.out| <= n && g.used <= |g.out|
  {
    hide GenOk, Advance, Start, Complete;
    if n == 0 then Start(tr, threads)
    else
      StepUsed(tr, threads, RunTo(tr, threads, plan, n - 1));
      Advance(tr, threads, RunTo(tr, threads, plan, n - 1), plan)
  }

  lemma StepUsed(tr: ScTrace, threads: nat, g: Gen)
    requires GenOk(tr, threads, g)
    ensures AtChoice(tr, threads, g) ==> Candidates(tr, threads, g) != []
  {
  }

  // ----- the same choices lead to the same place -----

  lemma {:induction false} UsedGrows(tr: ScTrace, threads: nat, plan: seq<nat>, m: nat, n: nat)
    requires Complete(tr, threads) && m <= n
    ensures RunTo(tr, threads, plan, m).used <= RunTo(tr, threads, plan, n).used
    decreases n
  {
    hide Advance, GenOk, Complete, Start, AtChoice, Candidates;
    if m < n {
      UsedGrows(tr, threads, plan, m, n - 1);
    }
  }

  lemma AdvanceSame(tr: ScTrace, threads: nat, g: Gen, plan: seq<nat>, plan': seq<nat>)
    requires Complete(tr, threads) && GenOk(tr, threads, g)
    requires AtChoice(tr, threads, g) ==> g.used < |plan| && g.used < |plan'| && plan[g.used] == plan'[g.used]
    ensures Advance(tr, threads, g, plan') == Advance(tr, threads, g, plan)
  {
    hide Taken, Candidates, Complete, ListsOk, Split;
  }

  /** A run depends only on the choices it has made. */
  lemma {:induction false} SamePrefix(tr: ScTrace, threads: nat, plan: seq<nat>, plan': seq<nat>, q: nat, n: nat)
    requires Complete(tr, threads) && q <= |plan| && q <= |plan'| && plan[..q] == plan'[..q]
             && RunTo(tr, threads, plan, n).used <= q
    ensures RunTo(tr, threads, plan', n) == RunTo(tr, threads, plan, n)
    decreases n
  {
    hide Advance, GenOk, Complete, AtChoice;
    if n > 0 {
      UsedGrows(tr, threads, plan, n - 1, n);
      SamePrefix(tr, threads, plan, plan', q, n - 1);
      var g := RunTo(tr, threads, plan, n - 1);
      if AtChoice(tr, threads, g) {
        assert plan[g.used] == plan[..q][g.used] == plan'[..q][g.used] == plan'[g.used];
      }
      AdvanceSame(tr, threads, g, plan, plan');
    }
  }

  /** If the q-th choice is made at g, the plan names a candidate there, with the given number to spare. */
  ghost predicate NamesAt(tr: ScTrace, threads: nat, plan: seq<nat>, q: nat, spare: nat, g: Gen)
    requires GenOk(tr, threads, g) && q < |plan|
  {
    AtChoice(tr, threads, g) && g.used == q ==> plan[q] + spare < |Candidates(tr, threads, g)|
  }

  ghost predicate Names(tr: ScTrace, threads: nat, plan: seq<nat>, q: nat, spare: nat)
    requires Complete(tr, threads) && q < |plan|
  {
    forall n: nat {:trigger RunTo(tr, threads, plan, n)} ::
      NamesAt(tr, threads, plan, q, spare, RunTo(tr, threads, plan, n))
  }

  /** A choice is made at one point of the run only. */
  lemma OnePoint(tr: ScTrace, threads: nat, plan: seq<nat>, m: nat, n: nat)
    requires Complete(tr, threads) && m < n && AtChoice(tr, threads, RunTo(tr, threads, plan, m))
    ensures RunTo(tr, threads, plan, m).used < RunTo(tr, threads, plan, n).used
  {
    hide Advance, GenOk, Complete, AtChoice;
    UsedGrows(tr, threads, plan, m + 1, n);
    assert RunTo(tr, threads, plan, m + 1) == Advance(tr, threads, RunTo(tr, threads, plan, m), plan);
  }

  lemma NamedHere(tr: ScTrace, threads: nat, plan: seq<nat>, n: nat, spare: nat)
    requires Complete(tr, threads)
    requires var g := RunTo(tr, threads, plan, n);
             AtChoice(tr, threads, g) && g.used < |plan| && plan[g.used] + spare < |Candidates(tr, threads, g)|
    ensures Names(tr, threads, plan, RunTo(tr, threads, plan, n).used, spare)
  {
    hide RunTo, GenOk, Complete, AtChoice;
    var q := RunTo(tr, threads, plan, n).used;
    forall m: nat
      ensures NamesAt(tr, threads, plan, q, spare, RunTo(tr, threads, plan, m))
    {
      if AtChoice(tr, threads, RunTo(tr, threads, plan, m)) {
        if m < n {
          OnePoint(tr, threads, plan, m, n);
        } else if n < m {
          OnePoint(tr, threads, plan, n, m);
        }
      }
    }
  }

  /** The plan up to q decides about the q-th choice. */
  lemma NamedStill(tr: ScTrace, threads: nat, plan: seq<nat>, plan': seq<nat>, q: nat, spare: nat, spare': nat)
    requires Complete(tr, threads) && q < |plan| && q < |plan'| && plan[..q] == plan'[..q]
             && Names(tr, threads, plan, q, spare)
    requires plan'[q] + spare' <= plan[q] + spare
    ensures Names(tr, threads, plan', q, spare')
  {
    hide RunTo, GenOk, Complete, AtChoice;
    forall n: nat
      ensures NamesAt(tr, threads, plan', q, spare', RunTo(tr, threads, plan', n))
    {
      var g := RunTo(tr, threads, plan', n);
      if g.used == q {
        SamePrefix(tr, threads, plan', plan, q, n);
        assert NamesAt(tr, threads, plan, q, spare, RunTo(tr, threads, plan, n));
      }
    }
  }

  // ----- plans as numbers -----

  function Value(plan: seq<nat>, m: nat): (v: nat) {
    if plan == [] then 0 else Value(plan[..|plan| - 1], m) * m + plan[|plan| - 1]
  }

  function Power(m: nat, n: nat): nat {
    if n == 0 then 1 else Power(m, n - 1) * m
  }

  ghost predicate Digits(plan: seq<nat>, m: nat) {
    forall q {:trigger plan[q]} :: 0 <= q < |plan| ==> plan[q] < m
  }

  lemma Shifted(a: nat, b: nat, m: nat)
    requires a < b
    ensures a * m + m <= b * m
  {
    Arithmetic.Distribute(b, a, m);
    Arithmetic.Times(b - a, m);
  }

  lemma {:induction false} ValueBelow(plan: seq<nat>, m: nat)
    requires Digits(plan, m)
    ensures Value(plan, m) < Power(m, |plan|)
    decreases |plan|
  {
    if plan != [] {
      ValueBelow(plan[..|plan| - 1], m);
      Shifted(Value(plan[..|plan| - 1], m), Power(m, |plan| - 1), m);
    }
  }

  /** Of two plans that first differ at j, the one with the larger choice there has the larger value. */
  lemma {:induction false} ValueGrows(plan: seq<nat>, plan': seq<nat>, m: nat, j: nat)
    requires Digits(plan, m) && Digits(plan', m) && j < |plan| == |plan'| && plan[..j] == plan'[..j]
             && plan[j] < plan'[j]
    ensures Value(plan, m) < Value(plan', m)
    decreases |plan|
  {
    var k := |plan| - 1;
    if j == k {
      assert plan[..k] == plan'[..k];
    } else {
      assert plan[..k][..j] == plan[..j] && plan'[..k][..j] == plan'[..j];
      ValueGrows(plan[..k], plan'[..k], m, j);
      Shifted(Value(plan[..k], m), Value(plan'[..k], m), m);
    }
  }

  // ----- how long an order can be -----

  lemma NewInPrefix(tr: ScTrace, out: seq<nat>, k: nat)
    requires Ordered(tr, out) && k < |out|
    ensures out[k] !in out[..k] && forall a: nat :: a in out[..k + 1] <==> a in out[..k] || a == out[k]
  {
    assert out[..k + 1] == out[..k] + [out[k]];
  }

  lemma {:induction false} OrderedSet(tr: ScTrace, out: seq<nat>, k: nat) returns (r: set<nat>)
    requires Ordered(tr, out) && k <= |out|
    ensures |r| == k && forall a: nat {:trigger a in r} :: a in r <==> a in out[..k]
    decreases k
  {
    hide Ordered;
    if k == 0 {
      r := {};
    } else {
      var r0 := OrderedSet(tr, out, k - 1);
      NewInPrefix(tr, out, k - 1);
      r := r0 + {out[k - 1]};
    }
  }

  lemma {:induction false} AtLeast(r: set<nat>, n: nat)
    requires forall a: nat {:trigger a in r} :: a < n ==> a in r
    ensures n <= |r|
    decreases n
  {
    if n > 0 {
      AtLeast(r - {n - 1}, n - 1);
    }
  }

  /** No action is emitted twice. */
  lemma OrderedShort(tr: ScTrace, out: seq<nat>)
    requires Ordered(tr, out)
    ensures |out| <= |tr|
  {
    var r := OrderedSet(tr, out, |out|);
    assert forall a: nat {:trigger a in r} :: a in r ==> a < |tr|;
    Relations.SubsetOfBelow(r, |tr|);
  }

  /** While there is a candidate, there is room for it. */
  lemma Room(tr: ScTrace, threads: nat, g: Gen)
    requires Complete(tr, threads) && GenOk(tr, threads, g) && Candidates(tr, threads, g) != []
    ensures |g.out| < |tr|
  {
    var g' := Taken(tr, threads, g, Picked(tr, threads, g, 0));
    OrderedShort(tr, g'.out);
  }

  /** A permutation of the trace that keeps every thread's order. */
  ghost predicate Interleaving(tr: ScTrace, out: seq<nat>) {
    |out| == |tr| && Ordered(tr, out) && forall a: nat {:trigger a in out} :: a < |tr| ==> a in out
  }

  lemma FullOrder(tr: ScTrace, out: seq<nat>)
    requires Interleaving(tr, out)
    ensures |out| == |tr| && Ordered(tr, out)
  {
  }

  /** Without candidates, everything has been emitted. */
  lemma Finished(tr: ScTrace, threads: nat, g: Gen)
    requires Complete(tr, threads) && GenOk(tr, threads, g) && HbForward(tr) && Candidates(tr, threads, g) == []
    ensures Interleaving(tr, g.out)
  {
    forall t | 0 <= t < |g.lists|
      ensures g.lists[t] == []
    {
      if g.lists[t] != [] {
        SomeNext(tr, g.lists, g.s);
      }
    }
    forall a: nat | a < |tr|
      ensures a in g.out
    {
      assert Somewhere(tr, g.lists, g.out, a);
    }
    OrderedShort(tr, g.out);
    var r := OrderedSet(tr, g.out, |g.out|);
    assert g.out[..|g.out|] == g.out;
    AtLeast(r, |tr|);
  }

  lemma LeftBlocks(lists: Lists, c: Clock, t: nat, u: nat, k: nat)
    requires u < |lists| && u != t && k < |lists[u]| && Increasing(lists[u]) && Since(c, u, lists[u][k])
    ensures Blocked(lists, c, t)
  {
    assert lists[u][0] <= lists[u][k];
    assert Since(c, u, lists[u][0]);
  }

  /** The clock that decides whether a front is a candidate. */
  function Deciding(tr: ScTrace, threads: nat, g: Gen, a: nat): Clock
    requires GenOk(tr, threads, g) && a < |tr|
  {
    Fronts(tr, g.lists);
    if Ready(g.lists, ClocksOf(g.s), 0) != [] then g.s.cvs[a].value else tr[a].hb
  }

  /** Whatever the deciding clock of a candidate names in other threads has been emitted before it. */
  lemma EmittedBefore(tr: ScTrace, threads: nat, g: Gen, k: nat, x: nat)
    requires GenOk(tr, threads, g) && k < |Candidates(tr, threads, g)| && x < |tr|
    requires var a := Candidates(tr, threads, g)[k];
             tr[x].tid != tr[a].tid && Since(Deciding(tr, threads, g, a), tr[x].tid, x)
    ensures x in g.out
  {
    var a := Candidates(tr, threads, g)[k];
    Fronts(tr, g.lists);
    ReadyFree(tr, g.lists, ClocksOf(g.s), 0);
    ReadyFree(tr, g.lists, HbOf(tr), 0);
    assert ClocksOf(g.s)[a] == g.s.cvs[a].value;
    assert !Blocked(g.lists, Deciding(tr, threads, g, a), tr[a].tid);
    assert Somewhere(tr, g.lists, g.out, x);
    if x !in g.out {
      var u := tr[x].tid;
      assert Increasing(g.lists[u]);
      var j :| 0 <= j < |g.lists[u]| && g.lists[u][j] == x;
      LeftBlocks(g.lists, Deciding(tr, threads, g, a), tr[a].tid, u, j);
    }
  }
}
