/** The analysis that looks for a sequentially consistent order of a trace, on its mutable state. */
module ScAnalysis {
  import opened GraphTheory
  import opened Clocks
  import opened ScTheory
  import opened ScPasses
  import opened ScChoices
  import opened ScGeneration
  import opened ScSearch
  import opened ScConsistency
  import opened ScLinear
  import opened ScComplete

  class SCAnalysis {
    const tr: ScTrace
    const threads: nat
    var cvs: seq<Option<Clock>>
    var cyclic: bool
    var threadlists: Lists
    var badrf: map<nat, Option<nat>>
    var lastwr: map<nat, nat>

    constructor (tr: ScTrace, threads: nat)
      requires Complete(tr, threads)
      ensures this.tr == tr && this.threads == threads && Valid() && S() == Unset(|tr|)
      ensures threadlists == seq(threads, _ => []) && badrf == map[] && lastwr == map[]
    {
      this.tr, this.threads := tr, threads;
      cvs, cyclic := seq(|tr|, _ => None), false;
      threadlists := seq(threads, _ => []);
      badrf, lastwr := map[], map[];
    }

    ghost predicate Valid()
      reads this
    {
      Complete(tr, threads) && |cvs| == |tr| && |threadlists| == threads
    }

    ghost function S(): Vectors
      reads this
    {
      Vectors(cvs, cyclic)
    }

    // ----- the clocks -----

    method MergeInto(act: nat, act2: nat) returns (changed: bool)
      requires Valid() && act < |tr| && act2 < |tr| && cvs[act].Some?
      modifies `cvs, `cyclic
      ensures Valid() && (S(), changed) == Merge(tr, old(S()), act, act2)
    {
      var cv2 := cvs[act2];
      if cv2.None? {
        return true;
      }
      if Since(cv2.value, tr[act].tid, act) {
        cyclic := true;
        return false;
      }
      changed := Exceeds(cv2.value, cvs[act].value);
      cvs := cvs[act := Some(Join(cvs[act].value, cv2.value))];
    }

    /** The other writes of one thread to what is read, newest first. */
    method ReadThread(r: nat, t: nat, before: bool) returns (changed: bool)
      requires Valid() && r < |tr| && cvs[r].Some? && tr[r].rf < |tr|
      modifies `cvs, `cyclic
      ensures Valid()
      ensures var l := OnObject(tr, tr[r].loc, t, |tr|); (S(), changed) == ReadBack(tr, old(S()), before, r, l, |l|)
    {
      changed := before;
      var list := OnObject(tr, tr[r].loc, t, |tr|);
      var w := tr[r].rf;
      var k := |list|;
      while k > 0
        invariant 0 <= k <= |list| && Valid() && cvs[r].Some?
        invariant ReadBack(tr, S(), changed, r, list, k) == ReadBack(tr, old(S()), before, r, list, |list|)
        decreases k
      {
        var w2 := list[k - 1];
        if tr[w2].write && cvs[w2].Some? {
          ghost var s := S();
          MergeSets(tr, s, w2, r);
          var c := false;
          if Since(cvs[w2].value, tr[w].tid, w) {
            c := MergeInto(w2, r);
          }
          changed := changed || c;
          if Since(cvs[r].value, tr[w2].tid, w2) {
            var d := true;
            if cvs[w].Some? {
              d := MergeInto(w, w2);
            }
            changed := changed || d;
            return;
          }
        }
        k := k - 1;
      }
    }

    method ProcessRead(r: nat) returns (changed: bool)
      requires Valid() && r < |tr| && cvs[r].Some? && tr[r].read
      modifies `cvs, `cyclic
      ensures Valid() && tr[r].rf < |tr| && (S(), changed) == ScPasses.ProcessRead(tr, old(S()), r, threads)
    {
      hide Complete, ReadBack, Merge, OnObject;
      CompleteAt(tr, threads, r);
      var w := tr[r].rf;
      MergeSets(tr, S(), r, w);
      changed := MergeInto(r, w);
      changed := changed && r < w;
      var t := 0;
      while t < threads
        invariant t <= threads && Valid() && cvs[r].Some?
        invariant ReadThreads(tr, S(), changed, r, threads, t) == ScPasses.ProcessRead(tr, old(S()), r, threads)
      {
        if t != tr[r].tid && t != tr[w].tid {
          ghost var l := OnObject(tr, tr[r].loc, t, |tr|);
          ReadBackSets(tr, S(), changed, r, l, |l|);
          changed := ReadThread(r, t, changed);
        }
        t := t + 1;
      }
    }

    /** One action in a pass. */
    method VisitAction(a: nat, lastact: Option<nat>, before: bool) returns (changed: bool)
      requires Valid() && a < |tr| && (lastact.Some? ==> lastact.value < |tr|)
      modifies `cvs, `cyclic
      ensures Valid() && (S(), changed) == Visit(tr, old(S()), before, a, lastact, threads)
    {
      changed := before;
      CompleteAt(tr, threads, a);
      if cvs[a].None? {
        cvs := cvs[a := Some(Create([], tr[a].tid, a + 1))];
      }
      MergeKeeps(tr, S(), a, lastact);
      if lastact.Some? {
        var _ := MergeInto(a, lastact.value);
      }
      MergeKeeps(tr, S(), a, tr[a].join);
      if tr[a].join.Some? {
        var c := MergeInto(a, tr[a].join.value);
        changed := changed || c;
      }
      if tr[a].read {
        var c := ProcessRead(a);
        changed := changed || c;
      }
    }

    method ComputeCV()
      requires Valid() && Bounded(S(), threads)
      modifies `cvs, `cyclic
      ensures Valid() && S() == Computed(tr, old(S()), true, threads)
    {
      hide Bounded, Visit, Complete;
      var changed, firsttime := true, true;
      var last: map<nat, nat> := map[];
      while changed
        invariant Valid() && Bounded(S(), threads) && (!firsttime ==> AllSet(S())) && (changed ==> last == map[])
        invariant changed ==> Computed(tr, S(), firsttime, threads) == Computed(tr, old(S()), true, threads)
        invariant !changed ==> S() == Computed(tr, old(S()), true, threads)
        decreases changed, firsttime, Slack(cvs, |tr|, threads)
      {
        ghost var s, first := S(), firsttime;
        PassGrows(tr, s, first, threads);
        changed, firsttime := firsttime, false;
        var a := 0;
        while a < |tr|
          invariant a <= |tr| && Valid() && LastOk(tr, last)
          invariant Pass(tr, S(), changed, a, last, threads) == Pass(tr, s, first, 0, map[], threads)
        {
          CompleteAt(tr, threads, a);
          changed := VisitAction(a, LastAct(tr, last, a), changed);
          last := last[tr[a].tid := a];
          a := a + 1;
        }
        if changed {
          last := map[];
        }
      }
    }

    // ----- the candidates -----

    /** Whether another thread's first action comes before an action with this clock. */
    method IsBlocked(c: Clock, t: nat) returns (b: bool)
      ensures b == Blocked(threadlists, c, t)
    {
      var i := 0;
      while i < |threadlists|
        invariant i <= |threadlists|
        invariant forall j: nat :: j < i && j != t && threadlists[j] != [] ==> !Since(c, j, threadlists[j][0])
      {
        if i != t && threadlists[i] != [] && Since(c, i, threadlists[i][0]) {
          return true;
        }
        i := i + 1;
      }
      return false;
    }

    method ReadyActions(clocks: seq<Clock>) returns (arr: seq<nat>)
      requires forall i {:trigger threadlists[i]} ::
                 0 <= i < |threadlists| && threadlists[i] != [] ==> threadlists[i][0] < |clocks|
      ensures arr == Ready(threadlists, clocks, 0)
    {
      arr := [];
      var t := 0;
      while t < |threadlists|
        invariant t <= |threadlists| && arr + Ready(threadlists, clocks, t) == Ready(threadlists, clocks, 0)
      {
        ghost var rest := Ready(threadlists, clocks, t + 1);
        if threadlists[t] != [] {
          var act := threadlists[t][0];
          var blocked := IsBlocked(clocks[act], t);
          if !blocked {
            assert arr + ([act] + rest) == arr + [act] + rest;
            arr := arr + [act];
          }
        }
        t := t + 1;
      }
    }

    method GetNextActions() returns (arr: seq<nat>)
      requires Valid() && ListsOk(tr, threadlists)
      ensures arr == NextActions(tr, threadlists, S())
    {
      Fronts(tr, threadlists);
      arr := ReadyActions(ClocksOf(Vectors(cvs, cyclic)));
      if arr == [] {
        arr := ReadyActions(HbOf(tr));
      }
    }

    /** Whether another thread still has a write of the action's location that is not known to come after it. */
    method HasConflict(act: nat) returns (b: bool)
      requires Valid() && ListsIn(tr, threadlists) && act < |tr| && AllSet(S())
      ensures b == Conflicts(tr, threadlists, S(), act)
    {
      var i := 0;
      while i < |threadlists|
        invariant i <= |threadlists|
        invariant forall j: nat :: j < i && j != tr[act].tid ==> !ConflictIn(tr, S(), act, threadlists[j], 0)
      {
        if i != tr[act].tid {
          var list := threadlists[i];
          var k := 0;
          while k < |list|
            invariant k <= |list| && ConflictIn(tr, S(), act, list, 0) == ConflictIn(tr, S(), act, list, k)
          {
            var w := list[k];
            if tr[w].write {
              if Since(cvs[w].value, tr[act].tid, act) {
                break;
              }
              if tr[w].loc == tr[act].loc {
                return true;
              }
            }
            k := k + 1;
          }
        }
        i := i + 1;
      }
      return false;
    }

    method PruneArray(arr: seq<nat>) returns (r: Option<nat>)
      requires Valid() && ListsIn(tr, threadlists) && AllSet(S())
      requires arr != [] && forall i {:trigger arr[i]} :: 0 <= i < |arr| ==> arr[i] < |tr|
      ensures r == Prune(tr, threadlists, S(), arr)
    {
      if |arr| == 1 {
        return Some(arr[0]);
      }
      r := None;
      var i := 0;
      while i < |arr|
        invariant i <= |arr| && r == NonWrite(tr, arr, i)
      {
        if !tr[arr[i]].write && (r.None? || r.value > arr[i]) {
          r := Some(arr[i]);
        }
        i := i + 1;
      }
      if r.Some? {
        return;
      }
      i := 0;
      while i < |arr|
        invariant i <= |arr| && r == NonConflict(tr, threadlists, S(), arr, i)
      {
        var conflict := HasConflict(arr[i]);
        if !conflict && (r.None? || r.value > arr[i]) {
          r := Some(arr[i]);
        }
        i := i + 1;
      }
    }

    // ----- taking an action -----

    method UpdateConstraints(act: nat) returns (changed: bool)
      requires Valid() && ListsIn(tr, threadlists) && act < |tr| && AllSet(S())
      modifies `cvs, `cyclic
      ensures Valid() && (S(), changed) == ScChoices.UpdateConstraints(tr, threadlists, old(S()), false, act, 0)
    {
      changed := false;
      var i := 0;
      while i < |threadlists|
        invariant i <= |threadlists| && Valid() && AllSet(S())
        invariant ScChoices.UpdateConstraints(tr, threadlists, S(), changed, act,
                                              i) == ScChoices.UpdateConstraints(tr, threadlists, old(S()), false,
                                                  act, 0)
      {
        if i != tr[act].tid {
          var c := UpdateThread(act, threadlists[i]);
          changed := changed || c;
        }
        i := i + 1;
      }
    }

    method UpdateThread(act: nat, list: seq<nat>) returns (changed: bool)
      requires Valid() && act < |tr| && AllSet(S()) && forall i {:trigger list[i]} :: 0 <= i < |list| ==> list[i] < |tr|
      modifies `cvs, `cyclic
      ensures Valid() && (S(), changed) == AfterAct(tr, old(S()), act, list, 0)
    {
      var k := 0;
      while k < |list|
        invariant k <= |list| && Valid() && S() == old(S())
        invariant AfterAct(tr, S(), act, list, k) == AfterAct(tr, S(), act, list, 0)
      {
        var w := list[k];
        if tr[w].write {
          if Since(cvs[w].value, tr[act].tid, act) {
            return false;
          }
          if tr[w].loc == tr[act].loc {
            var _ := MergeInto(w, act);
            return true;
          }
        }
        k := k + 1;
      }
      return false;
    }

    // ----- the thread lists -----

    method BuildVectors()
      requires Valid() && forall t {:trigger threadlists[t]} :: 0 <= t < threads ==> threadlists[t] == []
      modifies `threadlists
      ensures Valid() && threadlists == AllLists(tr, threads)
    {
      var a := 0;
      while a < |tr|
        invariant a <= |tr| && Valid()
        invariant forall t {:trigger threadlists[t]} :: 0 <= t < threads ==> threadlists[t] == ThreadList(tr, t, a)
      {
        CompleteAt(tr, threads, a);
        var t := tr[a].tid;
        threadlists := threadlists[t := threadlists[t] + [a]];
        a := a + 1;
      }
    }

    method Reset()
      requires Valid()
      modifies `cvs, `cyclic, `threadlists
      ensures Valid() && S() == Unset(|tr|)
              && forall t {:trigger threadlists[t]} :: 0 <= t < threads ==> threadlists[t] == []
    {
      var t := 0;
      while t < threads
        invariant t <= threads && Valid() && forall u {:trigger threadlists[u]} :: 0 <= u < t ==> threadlists[u] == []
      {
        threadlists := threadlists[t := []];
        t := t + 1;
      }
      var a := 0;
      while a < |tr|
        invariant a <= |tr| && Valid() && forall b {:trigger cvs[b]} :: 0 <= b < a ==> cvs[b].None?
        invariant forall u {:trigger threadlists[u]} :: 0 <= u < threads ==> threadlists[u] == []
      {
        cvs := cvs[a := None];
        a := a + 1;
      }
      cyclic := false;
    }

    // ----- the search -----

    ghost predicate Is(g: Gen)
      reads this
    {
      threadlists == g.lists && S() == g.s
    }

    /** Vectors and clocks as they are before anything is taken. */
    method Begin()
      requires Valid() && S() == Unset(|tr|)
               && forall t {:trigger threadlists[t]} :: 0 <= t < threads ==> threadlists[t] == []
      modifies `cvs, `cyclic, `threadlists
      ensures Valid() && Is(Start(tr, threads))
    {
      BuildVectors();
      ComputeCV();
    }

    method StartOver()
      requires Valid()
      modifies `cvs, `cyclic, `threadlists
      ensures Valid() && Is(Start(tr, threads))
    {
      Reset();
      Begin();
    }

    /** Taking an action; tells whether working out what follows is what met the first cycle. */
    method Take(act: nat, ghost g: Gen) returns (broke: bool)
      requires Valid() && GenOk(tr, threads, g) && Is(g) && IsFront(tr, g.lists, act)
      modifies `cvs, `cyclic, `threadlists
      ensures Valid() && Is(Taken(tr, threads, g, act)) && broke == Broke(tr, threads, g, act)
    {
      hide Computed, ScChoices.UpdateConstraints, Complete, Bounded, Split;
      PopOk(tr, g.lists, act);
      var tid := tr[act].tid;
      threadlists := threadlists[tid := threadlists[tid][1..]];
      UpdateStep(tr, threadlists, S(), false, act, 0, threads);
      var changed := UpdateConstraints(act);
      broke := false;
      if changed {
        var prevc := cyclic;
        ComputeCV();
        broke := !prevc && cyclic;
      }
    }

    /** The candidate to take, and the record of the choice if there was one. */
    method Choose(arr: seq<nat>, choices: array<nat>, end: nat, curr: nat, last: int, ghost plan: seq<nat>,
                  ghost n: nat)
      returns (act: nat, curr': nat, last': int)
      requires Valid() && Is(RunTo(tr, threads, plan, n)) && n < |tr|
      requires arr == Candidates(tr, threads, RunTo(tr, threads, plan, n)) != []
      requires Book(tr, threads, plan, choices[..], end, curr, last) && curr == RunTo(tr, threads, plan, n).used
      modifies choices
      ensures act == Picked(tr, threads, RunTo(tr, threads, plan, n), Choice(plan, curr))
              && curr' == Made(tr, threads, plan, n)
      ensures Book(tr, threads, plan, choices[..], end, curr', last')
    {
      hide RunTo, Complete, Names, Last, Book, IsPlan, GenOk, Candidates, Prune, ListsIn;
      ghost var g, was := RunTo(tr, threads, plan, n), choices[..];
      curr', last' := curr, last;
      GenLists(tr, threads, g);
      var p := PruneArray(arr);
      if p.Some? {
        act := p.value;
        return;
      }
      BookHas(tr, threads, plan, was, end, curr, last, n);
      if curr < end {
        assert was[curr] == choices[curr];
        act := arr[choices[curr]];
        if choices[curr] + 1 < |arr| {
          last' := curr;
        }
      } else {
        act := arr[0];
        choices[curr] := 0;
        if |arr| > 1 {
          last' := curr;
        }
      }
      curr' := curr + 1;
      BookMore(tr, threads, plan, was, choices[..], end, curr, last, last', n);
    }

    /** Everything starts over, with the next candidate at the last choice that has one. */
    method RollBack(choices: array<nat>, last: nat, ghost plan: seq<nat>, ghost end: nat, ghost curr: nat, ghost n: nat)
      requires Valid() && last < choices.Length == |tr| == |plan|
               && Book(tr, threads, plan, choices[..], end, curr, last)
      requires n < |tr| && curr == Made(tr, threads, plan, n) && BreaksAt(tr, threads, plan, n)
               && RuledOut(tr, threads, plan)
      modifies `cvs, `cyclic, `threadlists, choices
      ensures Valid() && Is(Start(tr, threads)) && Book(tr, threads, NextPlan(plan, last), choices[..], last + 1, 0, -1)
      ensures RuledOut(tr, threads, NextPlan(plan, last)) && Value(plan, threads) < Value(NextPlan(plan, last), threads)
    {
      hide Complete, Book, RuledOut, BreaksAt, Value, Made, NextPlan;
      NextBook(tr, threads, plan, choices[..], end, curr, last, n);
      BookRuledOut(tr, threads, plan, choices[..], end, curr, last, n);
      ghost var now := choices[..];
      choices[last] := choices[last] + 1;
      assert choices[..] == now[last := now[last] + 1];
      StartOver();
    }

    /**
     * The order found, and the choices that lead to it. It is a permutation of the trace that keeps every thread's
     * order; and if its choices run into a cycle, so do all others. On a tractable trace the cycle flag is down
     * exactly if some order keeps to every rule, and then the order found does.
     */
    method GenerateSC() returns (sclist: seq<nat>, ghost plan: seq<nat>)
      requires Valid() && HbForward(tr) && S() == Unset(|tr|)
      requires forall t {:trigger threadlists[t]} :: 0 <= t < threads ==> threadlists[t] == []
      modifies `cvs, `cyclic, `threadlists
      ensures Interleaving(tr, sclist)
      ensures Complete(tr, threads) && IsPlan(tr, threads, plan) && sclist == RunTo(tr, threads, plan, |tr|).out
      ensures cyclic == RunTo(tr, threads, plan, |tr|).s.cyclic
      ensures Breaks(tr, threads, plan) ==>
                forall other: seq<nat> {:trigger IsPlan(tr, threads, other)} ::
                  IsPlan(tr, threads, other) ==> Breaks(tr, threads, other)
      ensures Tractable(tr) ==> (!cyclic <==> exists order: seq<nat> :: Lawful(tr, order))
      ensures Tractable(tr) && !cyclic ==> Lawful(tr, sclist)
    {
      hide RunTo, Complete, Names, Last, Book, IsPlan, GenOk, Candidates, RuledOut, Found, BreaksAt, Breaks, Value,
           Made, Picked, Taken, Broke, Choice, Interleaving, NextActions, ListsOk, HbForward, NextPlan, Power, Start,
           Tractable, Lawful;
      Begin();
      sclist := [];
      var choices := new nat[|tr|](_ => 0);
      var end: nat, curr: nat, last: int := 0, 0, -1;
      plan := choices[..];
      ZeroPlan(tr, threads, plan);
      ghost var broke := false;
      RunStart(tr, threads, plan);
      while true
        invariant Valid() && fresh(choices) && choices.Length == |tr|
        invariant Is(RunTo(tr, threads, plan, |sclist|)) && RunTo(tr, threads, plan, |sclist|).out == sclist
        invariant curr == RunTo(tr, threads, plan, |sclist|).used
        invariant Book(tr, threads, plan, choices[..], end, curr, last) && RuledOut(tr, threads, plan)
        invariant Found(tr, threads, plan, |sclist|, broke)
        decreases Power(threads, |tr|) - Value(plan, threads), |tr| - |sclist|
      {
        ghost var n, g := |sclist|, RunTo(tr, threads, plan, |sclist|);
        GenLists(tr, threads, g);
        BookPlan(tr, threads, plan, choices[..], end, curr, last);
        var arr := GetNextActions();
        if arr == [] {
          Finished(tr, threads, g);
          FoundAll(tr, threads, plan, broke);
          FullOrder(tr, sclist);
          if Tractable(tr) {
            SearchExactly(tr, threads, plan);
          }
          return;
        }
        Room(tr, threads, g);
        NextRun(tr, threads, plan, n);
        var act: nat;
        act, curr, last := Choose(arr, choices, end, curr, last, plan, n);
        BookPlan(tr, threads, plan, choices[..], end, curr, last);
        var cycle := Take(act, g);
        if cycle && last != -1 {
          RollBack(choices, last, plan, end, curr, n);
          plan := NextPlan(plan, last);
          end := last + 1;
          curr, last := 0, -1;
          sclist := [];
          broke := false;
          BookPlan(tr, threads, plan, choices[..], end, curr, last);
          RunStart(tr, threads, plan);
          continue;
        }
        FoundMore(tr, threads, plan, choices[..], end, curr, n, broke);
        broke := broke || cycle;
        sclist := sclist + [act];
      }
    }

    // ----- the check of the order -----

    /**
     * The reads of the list that do not see what they observed, with what they see instead. What is recorded before
     * counts too; both records are empty when an execution is analysed, since they are rolled back with it.
     */
    method CheckRf(list: seq<nat>)
      requires Ordered(tr, list)
      modifies `badrf, `lastwr
      ensures MissesRecorded(tr, list, |list|, old(lastwr), old(badrf), badrf)
      ensures WritesKept(tr, list, |list|, old(lastwr), lastwr)
      ensures old(badrf) == map[] && old(lastwr) == map[] && Interleaving(tr, list) ==>
                (badrf == map[] <==> Consistent(tr, list))
    {
      hide MissesRecorded, WritesKept, Ordered, Consistent;
      NoneRecorded(tr, list, lastwr, badrf);
      OrderedIn(tr, list);
      for n := 0 to |list|
        invariant MissesRecorded(tr, list, n, old(lastwr), old(badrf), badrf)
                  && WritesKept(tr, list, n, old(lastwr), lastwr)
      {
        var act := list[n];
        RecordNext(tr, list, n, old(lastwr), old(badrf), badrf, lastwr);
        if tr[act].read {
          var last := Looked(lastwr, tr[act].loc);
          if Some(tr[act].rf) != last {
            badrf := badrf[act := last];
          }
        }
        if tr[act].write {
          lastwr := lastwr[tr[act].loc := act];
        }
      }
      NoneMissed(tr, list, old(lastwr), old(badrf), badrf);
    }

    /**
     * An order of the trace, and whether it is sequentially consistent: exactly if no read is recorded as missing.
     * On a tractable trace a cycle means that no order is; and if also no write of the reader's or the writer's
     * thread can come between a read and what it observes, the analysis finds such an order exactly if there is one.
     */
    method Analyze() returns (sclist: seq<nat>, ghost plan: seq<nat>)
      requires Valid() && HbForward(tr) && S() == Unset(|tr|) && badrf == map[] && lastwr == map[]
      requires forall t {:trigger threadlists[t]} :: 0 <= t < threads ==> threadlists[t] == []
      modifies this
      ensures Interleaving(tr, sclist) && (badrf == map[] <==> Consistent(tr, sclist))
      ensures Complete(tr, threads) && IsPlan(tr, threads, plan) && sclist == RunTo(tr, threads, plan, |tr|).out
      ensures cyclic == RunTo(tr, threads, plan, |tr|).s.cyclic
      ensures Tractable(tr) && cyclic ==> !exists order: seq<nat> :: SequentiallyConsistent(tr, order)
      ensures Tractable(tr) && Plain(tr) && !cyclic ==> badrf == map[] && SequentiallyConsistent(tr, sclist)
    {
      hide RunTo, Complete, IsPlan, Interleaving, HbForward, Consistent, Tractable, Plain, Lawful;
      sclist, plan := GenerateSC();
      FullOrder(tr, sclist);
      CheckRf(sclist);
      if Tractable(tr) {
        FlagExactly(tr, threads, cyclic);
        if Plain(tr) && !cyclic {
          LawfulConsistent(tr, threads, sclist);
        }
      }
    }
  }
}
