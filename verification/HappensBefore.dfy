/** Happens-before by clock vectors: exact at every moment, also when synchronization is found late. */
module HappensBefore {
  import opened Relations
  import opened GraphTheory
  import opened Clocks

  /** Actions are numbered from 0; action a has sequence number a + 1. */
  predicate Hb(tids: seq<nat>, cvs: seq<Clock>, a: nat, b: nat)
    requires a < |tids| && b < |cvs|
  {
    a + 1 <= At(cvs[b], tids[a])
  }

  /** Edges of the relation lead from earlier to later actions. */
  ghost predicate Forward(rel: Rel, n: nat) {
    forall a, b :: (a, b) in rel ==> a < b < n
  }

  ghost predicate ProgramOrder(tids: seq<nat>, rel: Rel) {
    forall a, b :: 0 <= a < b < |tids| && tids[a] == tids[b] ==> Reach(rel, a, b)
  }

  /** A clock entry is 0 or the sequence number of an action of that thread. */
  ghost predicate Genuine(tids: seq<nat>, c: Clock) {
    forall t: nat :: At(c, t) == 0 || (At(c, t) <= |tids| && tids[At(c, t) - 1] == t)
  }

  /** The clocks tell exactly the reachability of the relation. */
  ghost predicate Exact(tids: seq<nat>, cvs: seq<Clock>, rel: Rel) {
    && |cvs| == |tids| && Forward(rel, |tids|) && ProgramOrder(tids, rel)
    && (forall b :: 0 <= b < |cvs| ==> Genuine(tids, cvs[b]))
    && (forall a, b {:trigger Hb(tids, cvs, a, b)} {:trigger Reach(rel, a, b)} ::
          0 <= a < |tids| && 0 <= b < |tids| ==> (Hb(tids, cvs, a, b) <==> Reach(rel, a, b)))
  }

  lemma {:induction false} ForwardReach(rel: Rel, n: nat, a: nat, b: nat)
    requires Forward(rel, n) && Reach(rel, a, b)
    ensures a <= b && (a != b ==> a < n && b < n)
  {
    var p :| IsPath(rel, p, a, b);
    ForwardPath(rel, n, p, a, b);
  }

  lemma {:induction false} ForwardPath(rel: Rel, n: nat, p: seq<nat>, a: nat, b: nat)
    requires Forward(rel, n) && IsPath(rel, p, a, b)
    ensures a <= b && (|p| > 1 ==> a < b < n)
    decreases |p|
  {
    if |p| > 1 {
      assert (p[0], p[1]) in rel;
      ForwardPath(rel, n, p[1..], p[1], b);
    }
  }

  // ----- a new action -----

  /** The action a new one inherits its clock from: the thread's last, or else the thread's creation. */
  ghost predicate IsParent(tids: seq<nat>, tid: nat, creation: Option<nat>, parent: Option<nat>) {
    if exists a :: 0 <= a < |tids| && tids[a] == tid
    then parent.Some? && parent.value < |tids| && tids[parent.value] == tid
         && forall a :: parent.value < a < |tids| ==> tids[a] != tid
    else parent == creation && (parent.Some? ==> parent.value < |tids|)
  }

  /** A thread's next action follows its last one, and its first one the action that created it. */
  function ParentOf(lastAction: map<nat, nat>, tid: nat, creation: Option<nat>): Option<nat> {
    if tid in lastAction then Some(lastAction[tid]) else creation
  }

  /** The last action of a thread. */
  ghost function LastOf(tids: seq<nat>, tid: nat): (last: Option<nat>) {
    if tids == [] then None
    else if tids[|tids| - 1] == tid then Some(|tids| - 1)
    else LastOf(tids[..|tids| - 1], tid)
  }

  /** The only action that can be the parent. */
  ghost function ParentIn(tids: seq<nat>, tid: nat, creation: Option<nat>): (parent: Option<nat>) {
    if LastOf(tids, tid).Some? then LastOf(tids, tid) else creation
  }

  lemma {:induction false} LastOfIs(tids: seq<nat>, tid: nat)
    ensures match LastOf(tids, tid)
            case None => tid !in tids
            case Some(p) => p < |tids| && tids[p] == tid && forall a :: p < a < |tids| ==> tids[a] != tid
    decreases |tids|
  {
    if tids != [] {
      LastOfIs(tids[..|tids| - 1], tid);
      assert tids == tids[..|tids| - 1] + [tids[|tids| - 1]];
    }
  }

  lemma ParentUnique(tids: seq<nat>, tid: nat, creation: Option<nat>, parent: Option<nat>)
    requires IsParent(tids, tid, creation, parent)
    ensures parent == ParentIn(tids, tid, creation)
  {
    LastOfIs(tids, tid);
  }

  function ParentClock(cvs: seq<Clock>, parent: Option<nat>): Clock
    requires parent.Some? ==> parent.value < |cvs|
  {
    if parent.Some? then cvs[parent.value] else []
  }

  ghost function ParentEdge(parent: Option<nat>, n: nat): Rel {
    if parent.Some? then {(parent.value, n)} else {}
  }

  lemma NewReach(rel: Rel, n: nat, parent: Option<nat>, a: nat, b: nat)
    requires Forward(rel, n) && a <= n && b <= n && (parent.Some? ==> parent.value < n)
    ensures Reach(rel + ParentEdge(parent, n), a, b) <==>
            if b < n then a < n && Reach(rel, a, b) else a == n || (parent.Some? && Reach(rel, a, parent.value))
  {
    if parent.Some? {
      ReachAdd(rel, parent.value, n, a, b);
    } else {
      assert rel + ParentEdge(parent, n) == rel;
    }
    if Reach(rel, a, b) {
      ForwardReach(rel, n, a, b);
    }
    if Reach(rel, n, b) {
      ForwardReach(rel, n, n, b);
    }
    ReachRefl(rel, n);
    ReachRefl(rel + ParentEdge(parent, n), n);
  }

  lemma NewExact(tids: seq<nat>, cvs: seq<Clock>, rel: Rel, tid: nat, creation: Option<nat>, parent: Option<nat>)
    requires Exact(tids, cvs, rel) && IsParent(tids, tid, creation, parent)
    ensures var n := |tids|;
            Exact(tids + [tid], cvs + [Create(ParentClock(cvs, parent), tid, n + 1)], rel + ParentEdge(parent, n))
  {
    hide Genuine, Reach, Create;
    var n := |tids|;
    var c := Create(ParentClock(cvs, parent), tid, n + 1);
    var tids', cvs', rel' := tids + [tid], cvs + [c], rel + ParentEdge(parent, n);
    forall a, b | 0 <= a < |tids'| && 0 <= b < |tids'|
      ensures Hb(tids', cvs', a, b) <==> Reach(rel', a, b)
    {
      NewReach(rel, n, parent, a, b);
      NewHb(tids, cvs, rel, tid, creation, parent, a, b);
    }
    forall b | 0 <= b < |cvs'|
      ensures Genuine(tids', cvs'[b])
    {
      if b < n {
        CreateGenuine(tids, cvs[b], tid);
      } else {
        EmptyGenuine(tids);
        CreateGenuine(tids, ParentClock(cvs, parent), tid);
      }
    }
    forall a, b | 0 <= a < b < |tids'| && tids'[a] == tids'[b]
      ensures Reach(rel', a, b)
    {
      NewReach(rel, n, parent, a, b);
      ReachRefl(rel, a);
    }
  }

  lemma NewHb(tids: seq<nat>, cvs: seq<Clock>, rel: Rel, tid: nat, creation: Option<nat>, parent: Option<nat>, a: nat,
              b: nat)
    requires Exact(tids, cvs, rel) && IsParent(tids, tid, creation, parent) && a <= |tids| && b <= |tids|
    ensures var n := |tids|;
            Hb(tids + [tid], cvs + [Create(ParentClock(cvs, parent), tid, n + 1)], a, b) <==>
            if b < n then a < n && Hb(tids, cvs, a, b) else a == n || (parent.Some? && Hb(tids, cvs, a, parent.value))
  {
    var n := |tids|;
    if b < n {
      assert Genuine(tids, cvs[b]);
    } else if a < n && tids[a] == tid {
      var p := parent.value;
      ReachRefl(rel, a);
      assert a == p || Reach(rel, a, p);
      assert Hb(tids, cvs, a, p);
    }
  }

  /** What created a thread happens before its first action. */
  lemma CreationFirst(tids: seq<nat>, rel: Rel, tid: nat, creation: Option<nat>, parent: Option<nat>)
    requires IsParent(tids, tid, creation, parent) && tid !in tids && creation.Some?
    ensures Reach(rel + ParentEdge(parent, |tids|), creation.value, |tids|)
  {
    ReachPair(rel + ParentEdge(parent, |tids|), creation.value, |tids|);
  }

  // ----- synchronization -----

  /** Whether the later clocks have taken in what the acquire gained. */
  ghost predicate Propagated(tids: seq<nat>, cvs: seq<Clock>, cvs': seq<Clock>, release: nat, acquire: nat)
    requires |cvs| == |tids| && release < |cvs| && acquire < |cvs|
  {
    && |cvs'| == |cvs|
    && cvs'[acquire] == Join(cvs[acquire], cvs[release])
    && (forall k :: 0 <= k < acquire ==> cvs'[k] == cvs[k])
    && (forall k :: acquire < k < |cvs| ==>
          cvs'[k] == if Hb(tids, cvs, acquire, k) then Join(cvs[k], cvs'[acquire]) else cvs[k])
  }

  /** Adding a synchronizes-with edge late, and passing it on, keeps the clocks exact. */
  lemma SyncExact(tids: seq<nat>, cvs: seq<Clock>, cvs': seq<Clock>, rel: Rel, release: nat, acquire: nat)
    requires Exact(tids, cvs, rel) && release < acquire < |tids|
    requires Propagated(tids, cvs, cvs', release, acquire)
    ensures Exact(tids, cvs', rel + {(release, acquire)})
  {
    hide Genuine, Reach, Join;
    var rel' := rel + {(release, acquire)};
    forall a, b | 0 <= a < |tids| && 0 <= b < |tids|
      ensures Hb(tids, cvs', a, b) <==> Reach(rel', a, b)
    {
      ReachAdd(rel, release, acquire, a, b);
      SyncHb(tids, cvs, cvs', rel, release, acquire, a, b);
    }
    forall b | 0 <= b < |cvs'|
      ensures Genuine(tids, cvs'[b])
    {
      JoinGenuine(tids, cvs[acquire], cvs[release]);
      JoinGenuine(tids, cvs[b], cvs'[acquire]);
    }
    forall a, b | 0 <= a < b < |tids| && tids[a] == tids[b]
      ensures Reach(rel', a, b)
    {
      ReachMono(rel, rel', a, b);
    }
  }

  lemma JoinGenuine(tids: seq<nat>, c: Clock, d: Clock)
    ensures Genuine(tids, c) && Genuine(tids, d) ==> Genuine(tids, Join(c, d))
  {
  }

  lemma EmptyGenuine(tids: seq<nat>)
    ensures Genuine(tids, [])
  {
  }

  lemma CreateGenuine(tids: seq<nat>, c: Clock, tid: nat)
    requires Genuine(tids, c)
    ensures Genuine(tids + [tid], c) && Genuine(tids + [tid], Create(c, tid, |tids| + 1))
  {
  }

  lemma SyncHb(tids: seq<nat>, cvs: seq<Clock>, cvs': seq<Clock>, rel: Rel, release: nat, acquire: nat, a: nat, b: nat)
    requires Exact(tids, cvs, rel) && release < acquire < |tids| && a < |tids| && b < |tids|
    requires Propagated(tids, cvs, cvs', release, acquire)
    ensures Hb(tids, cvs', a, b) <==> Reach(rel, a, b) || (Reach(rel, a, release) && Reach(rel, acquire, b))
  {
    assert Hb(tids, cvs, a, b) <==> Reach(rel, a, b);
    assert Hb(tids, cvs, a, release) <==> Reach(rel, a, release);
    assert Hb(tids, cvs, acquire, b) <==> Reach(rel, acquire, b);
    assert Hb(tids, cvs, a, acquire) <==> Reach(rel, a, acquire);
    if Reach(rel, acquire, b) {
      ForwardReach(rel, |tids|, acquire, b);
      if Reach(rel, a, acquire) {
        ReachTrans(rel, a, acquire, b);
      }
    }
    ReachRefl(rel, acquire);
  }

  // ----- several heads at once -----

  /** The heads that come before the acquire synchronize with it. */
  ghost function LateEdges(heads: seq<nat>, acquire: nat): Rel {
    set h | h in heads && h < acquire :: (h, acquire)
  }

  ghost predicate AnyAfter(heads: seq<nat>, acquire: nat) {
    exists h :: h in heads && acquire < h
  }

  /** The clock names exactly what reaches the acquire. */
  ghost predicate Gathers(tids: seq<nat>, rel: Rel, c: Clock, acquire: nat) {
    Genuine(tids, c)
      && forall a {:trigger Reach(rel, a, acquire)} ::
           0 <= a < |tids| ==> (a + 1 <= At(c, tids[a]) <==> Reach(rel, a, acquire))
  }

  lemma LateSplit(heads: seq<nat>, h: nat, acquire: nat)
    ensures LateEdges(heads + [h], acquire) == LateEdges(heads, acquire) + (if h < acquire then {(h, acquire)} else {})
    ensures AnyAfter(heads + [h], acquire) <==> AnyAfter(heads, acquire) || h > acquire
  {
    if AnyAfter(heads, acquire) {
      var x :| x in heads && acquire < x;
      assert x in heads + [h];
    }
    assert h in heads + [h];
  }

  /** Edges into the acquire lead on only through it, and not to it from itself. */
  lemma {:induction false} LateReach(rel: Rel, n: nat, heads: seq<nat>, acquire: nat, a: nat, b: nat)
    requires Forward(rel, n) && acquire < n
    ensures var rel' := rel + LateEdges(heads, acquire);
            && (Reach(rel', a, b) <==> Reach(rel, a, b) || (Reach(rel', a, acquire) && Reach(rel, acquire, b)))
            && (b < acquire ==> (Reach(rel', a, b) <==> Reach(rel, a, b)))
    decreases |heads|
  {
    ReachRefl(rel, acquire);
    if Reach(rel, acquire, b) {
      ForwardReach(rel, n, acquire, b);
    }
    if heads == [] {
      assert rel + LateEdges(heads, acquire) == rel;
      if Reach(rel, a, acquire) && Reach(rel, acquire, b) {
        ReachTrans(rel, a, acquire, b);
      }
    } else {
      var k := |heads| - 1;
      var h, rest := heads[k], heads[..k];
      assert heads == rest + [h];
      LateSplit(rest, h, acquire);
      LateReach(rel, n, rest, acquire, a, b);
      if h < acquire {
        LateReachOne(rel, n, rest, h, acquire, a, b);
      } else {
        assert rel + LateEdges(heads, acquire) == rel + LateEdges(rest, acquire);
      }
    }
  }

  lemma LateReachOne(rel: Rel, n: nat, rest: seq<nat>, h: nat, acquire: nat, a: nat, b: nat)
    requires Forward(rel, n) && h < acquire < n
    requires var rel1 := rel + LateEdges(rest, acquire);
             && (Reach(rel1, a, b) <==> Reach(rel, a, b) || (Reach(rel1, a, acquire) && Reach(rel, acquire, b)))
             && (b < acquire ==> (Reach(rel1, a, b) <==> Reach(rel, a, b)))
    ensures var rel' := rel + LateEdges(rest + [h], acquire);
            && (Reach(rel', a, b) <==> Reach(rel, a, b) || (Reach(rel', a, acquire) && Reach(rel, acquire, b)))
            && (b < acquire ==> (Reach(rel', a, b) <==> Reach(rel, a, b)))
  {
    var rel1 := rel + LateEdges(rest, acquire);
    var rel' := rel + LateEdges(rest + [h], acquire);
    LateSplit(rest, h, acquire);
    assert rel' == rel1 + {(h, acquire)};
    ReachAdd(rel1, h, acquire, a, b);
    ReachAdd(rel1, h, acquire, a, acquire);
    ReachRefl(rel1, acquire);
    LateFrom(rel, n, rest, acquire, b);
    if Reach(rel, acquire, b) {
      ReachMono(rel, rel1, acquire, b);
      ForwardReach(rel, n, acquire, b);
    }
  }

  /** From the acquire nothing new is reached. */
  lemma LateFrom(rel: Rel, n: nat, rest: seq<nat>, acquire: nat, b: nat)
    requires Forward(rel, n) && acquire < n
    ensures Reach(rel + LateEdges(rest, acquire), acquire, b) <==> Reach(rel, acquire, b)
  {
    var rel1 := rel + LateEdges(rest, acquire);
    if Reach(rel1, acquire, b) {
      var p :| IsPath(rel1, p, acquire, b);
      LatePath(rel, n, rest, acquire, p, b);
    }
    if Reach(rel, acquire, b) {
      ReachMono(rel, rel1, acquire, b);
    }
  }

  lemma {:induction false} LatePath(rel: Rel, n: nat, rest: seq<nat>, acquire: nat, p: seq<nat>, b: nat)
    requires Forward(rel, n) && p != [] && acquire <= p[0] && IsPath(rel + LateEdges(rest, acquire), p, p[0], b)
    ensures IsPath(rel, p, p[0], b)
    decreases |p|
  {
    if |p| > 1 {
      assert (p[0], p[1]) in rel;
      LatePath(rel, n, rest, acquire, p[1..], b);
    }
  }

  lemma NothingGathered(tids: seq<nat>, cvs: seq<Clock>, rel: Rel, acquire: nat)
    requires Exact(tids, cvs, rel) && acquire < |tids|
    ensures Gathers(tids, rel + LateEdges([], acquire), cvs[acquire], acquire)
  {
    assert rel + LateEdges([], acquire) == rel;
    forall a | 0 <= a < |tids|
      ensures a + 1 <= At(cvs[acquire], tids[a]) <==> Reach(rel, a, acquire)
    {
      assert Hb(tids, cvs, a, acquire) <==> Reach(rel, a, acquire);
    }
  }

  lemma NoneAfter(acquire: nat)
    ensures !AnyAfter([], acquire)
  {
  }

  lemma LateForward(rel: Rel, n: nat, heads: seq<nat>, acquire: nat)
    requires Forward(rel, n) && acquire < n
    ensures Forward(rel + LateEdges(heads, acquire), n)
  {
  }

  /** One more head: nothing to do if it is known or comes after the acquire, and otherwise its clock is taken in. */
  lemma GatherNext(tids: seq<nat>, cvs: seq<Clock>, rel: Rel, heads: seq<nat>, c: Clock, h: nat, acquire: nat)
    requires Exact(tids, cvs, rel) && acquire < |tids| && h < |tids| && h != acquire
    requires Gathers(tids, rel + LateEdges(heads, acquire), c, acquire)
    ensures h > acquire ==> !(h + 1 <= At(c, tids[h]))
    ensures var known := h + 1 <= At(c, tids[h]) || h > acquire;
            Gathers(tids, rel + LateEdges(heads + [h], acquire), if known then c else Join(c, cvs[h]), acquire)
  {
    hide Genuine, Reach, Join;
    var rel1 := rel + LateEdges(heads, acquire);
    var rel2 := rel + LateEdges(heads + [h], acquire);
    LateForward(rel, |tids|, heads, acquire);
    LateSplit(heads, h, acquire);
    if h > acquire {
      assert rel2 == rel1;
      if Reach(rel1, h, acquire) {
        ForwardReach(rel1, |tids|, h, acquire);
      }
    } else {
      assert rel2 == rel1 + {(h, acquire)};
      ReachRefl(rel1, acquire);
      forall a | 0 <= a < |tids|
        ensures Reach(rel2, a, acquire) <==> Reach(rel1, a, acquire) || Hb(tids, cvs, a, h)
        ensures Reach(rel1, h, acquire) && Hb(tids, cvs, a, h) ==> Reach(rel1, a, acquire)
      {
        ReachAdd(rel1, h, acquire, a, acquire);
        LateReach(rel, |tids|, heads, acquire, a, h);
        if Reach(rel1, h, acquire) && Reach(rel1, a, h) {
          ReachTrans(rel1, a, h, acquire);
        }
      }
      JoinGenuine(tids, c, cvs[h]);
      JoinGathers(tids, rel1, rel2, cvs, c, h, acquire);
    }
  }

  lemma JoinGathers(tids: seq<nat>, rel1: Rel, rel2: Rel, cvs: seq<Clock>, c: Clock, h: nat, acquire: nat)
    requires |cvs| == |tids| && h < |tids| && Gathers(tids, rel1, c, acquire) && Genuine(tids, Join(c, cvs[h]))
    requires forall a {:trigger Reach(rel2, a, acquire)} ::
               0 <= a < |tids| ==> (Reach(rel2, a, acquire) <==> Reach(rel1, a, acquire) || Hb(tids, cvs, a, h))
    ensures Gathers(tids, rel2, Join(c, cvs[h]), acquire)
  {
    hide Genuine, Reach;
    forall a | 0 <= a < |tids|
      ensures a + 1 <= At(Join(c, cvs[h]), tids[a]) <==> Reach(rel2, a, acquire)
    {
      assert a + 1 <= At(c, tids[a]) <==> Reach(rel1, a, acquire);
    }
  }

  /** What the gathered clock does to the others when it is passed on. */
  ghost predicate PassedOn(tids: seq<nat>, cvs: seq<Clock>, cvs': seq<Clock>, c: Clock, acquire: nat)
    requires |cvs| == |tids| && acquire < |cvs|
  {
    && |cvs'| == |cvs| && cvs'[acquire] == c
    && (forall k :: 0 <= k < acquire ==> cvs'[k] == cvs[k])
    && (forall k :: acquire < k < |cvs| ==> cvs'[k] == if Hb(tids, cvs, acquire, k) then Join(cvs[k], c) else cvs[k])
  }

  lemma GatheredHb(tids: seq<nat>, cvs: seq<Clock>, cvs': seq<Clock>, rel: Rel, heads: seq<nat>, c: Clock,
                   acquire: nat, a: nat, b: nat)
    requires Exact(tids, cvs, rel) && acquire < |tids| && a < |tids| && b < |tids|
    requires Gathers(tids, rel + LateEdges(heads, acquire), c, acquire)
    requires PassedOn(tids, cvs, cvs', c, acquire) || (cvs' == cvs && c == cvs[acquire])
    ensures |cvs'| == |tids| && (Hb(tids, cvs', a, b) <==> Reach(rel + LateEdges(heads, acquire), a, b))
  {
    hide Genuine, Reach;
    var rel' := rel + LateEdges(heads, acquire);
    LateReach(rel, |tids|, heads, acquire, a, b);
    assert Hb(tids, cvs, a, b) <==> Reach(rel, a, b);
    assert Hb(tids, cvs, acquire, b) <==> Reach(rel, acquire, b);
    assert a + 1 <= At(c, tids[a]) <==> Reach(rel', a, acquire);
    ReachRefl(rel, acquire);
    if Reach(rel, acquire, b) {
      ForwardReach(rel, |tids|, acquire, b);
    }
    if cvs' == cvs {
      assert Hb(tids, cvs, a, acquire) <==> Reach(rel, a, acquire);
      if Reach(rel, a, acquire) && Reach(rel, acquire, b) {
        ReachTrans(rel, a, acquire, b);
      }
    }
  }

  /** Several heads taken in at once and passed on once leave the clocks exact. */
  lemma GatherAll(tids: seq<nat>, cvs: seq<Clock>, cvs': seq<Clock>, rel: Rel, heads: seq<nat>, c: Clock, acquire: nat)
    requires Exact(tids, cvs, rel) && acquire < |tids| && Gathers(tids, rel + LateEdges(heads, acquire), c, acquire)
    requires PassedOn(tids, cvs, cvs', c, acquire) || (cvs' == cvs && c == cvs[acquire])
    ensures Exact(tids, cvs', rel + LateEdges(heads, acquire))
  {
    hide Genuine, Reach, Join, Hb;
    var rel' := rel + LateEdges(heads, acquire);
    LateForward(rel, |tids|, heads, acquire);
    forall a, b | 0 <= a < |tids| && 0 <= b < |tids|
      ensures |cvs'| == |tids| && (Hb(tids, cvs', a, b) <==> Reach(rel', a, b))
    {
      GatheredHb(tids, cvs, cvs', rel, heads, c, acquire, a, b);
    }
    forall b | 0 <= b < |cvs'|
      ensures Genuine(tids, cvs'[b])
    {
      JoinGenuine(tids, cvs[b], c);
    }
    forall a, b | 0 <= a < b < |tids| && tids[a] == tids[b]
      ensures Reach(rel', a, b)
    {
      ReachMono(rel, rel', a, b);
    }
  }

  // ----- the trace as it is kept -----

  class ClockedTrace {
    /** Thread and clock of every action, in execution order. */
    var tids: seq<nat>
    var cvs: seq<Clock>
    /** The last action of each thread that has one. */
    var lastAction: map<nat, nat>
    var badSynchronization: bool
    /** Program order, thread creation, and synchronizes-with. */
    ghost var rel: Rel

    ghost predicate Valid()
      reads this
    {
      && Exact(tids, cvs, rel)
      && (forall t :: t in lastAction ==> lastAction[t] < |tids| && tids[lastAction[t]] == t)
      && (forall a :: 0 <= a < |tids| ==> tids[a] in lastAction && a <= lastAction[tids[a]])
    }

    constructor ()
      ensures Valid() && tids == [] && rel == {}
    {
      tids, cvs, lastAction, badSynchronization := [], [], map[], false;
      rel := {};
    }

    method GetParentAction(tid: nat, creation: Option<nat>) returns (parent: Option<nat>)
      requires Valid() && (creation.Some? ==> creation.value < |tids|)
      ensures IsParent(tids, tid, creation, parent) && parent == ParentOf(lastAction, tid, creation)
    {
      parent := if tid in lastAction then Some(lastAction[tid]) else creation;
    }

    /** Appends an action of a thread; creation is the action that made the thread. */
    method NewAction(tid: nat, creation: Option<nat>) returns (a: nat)
      requires Valid() && (creation.Some? ==> creation.value < |tids|)
      modifies this
      ensures Valid() && a == |old(tids)| && tids == old(tids) + [tid]
      ensures lastAction == old(lastAction)[tid := a] && badSynchronization == old(badSynchronization)
      ensures var parent := ParentOf(old(lastAction), tid, creation);
              && IsParent(old(tids), tid, creation, parent) && rel == old(rel) + ParentEdge(parent, a)
              && cvs == old(cvs) + [Create(ParentClock(old(cvs), parent), tid, a + 1)]
      ensures tid !in old(tids) && creation.Some? ==> Reach(rel, creation.value, a)
    {
      var parent := GetParentAction(tid, creation);
      a := |tids|;
      NewExact(tids, cvs, rel, tid, creation, parent);
      if tid !in tids && creation.Some? {
        CreationFirst(tids, rel, tid, creation, parent);
      }
      hide Exact;
      cvs := cvs + [Create(ParentClock(cvs, parent), tid, a + 1)];
      tids := tids + [tid];
      lastAction := lastAction[tid := a];
      rel := rel + ParentEdge(parent, a);
    }

    /** The second action inherits the first one's clock, unless it came earlier. */
    method Synchronize(first: nat, second: nat) returns (ok: bool)
      requires first < |cvs| && second < |cvs|
      modifies this`cvs, this`badSynchronization
      ensures ok == (first <= second)
      ensures cvs == if ok then old(cvs)[second := Join(old(cvs)[second], old(cvs)[first])] else old(cvs)
      ensures badSynchronization == (old(badSynchronization) || !ok)
    {
      if second < first {
        badSynchronization := true;
        return false;
      }
      cvs := cvs[second := Join(cvs[second], cvs[first])];
      return true;
    }

    /** Passes an acquire's clock on to every later action that it happens before. */
    method PropagateClockvector(acquire: nat)
      requires |cvs| == |tids| && acquire < |cvs|
      modifies this`cvs, this`badSynchronization
      ensures |cvs| == |old(cvs)| && forall k :: 0 <= k <= acquire ==> cvs[k] == old(cvs)[k]
      ensures forall k :: acquire < k < |cvs| ==>
                cvs[k] == if Hb(tids, old(cvs), acquire, k) then Join(old(cvs)[k], old(cvs)[acquire]) else old(cvs)[k]
      ensures badSynchronization == old(badSynchronization)
    {
      var k := |cvs| - 1;
      while k != acquire
        invariant acquire <= k < |cvs| == |old(cvs)|
        invariant forall j :: 0 <= j <= k ==> cvs[j] == old(cvs)[j]
        invariant forall j :: k < j < |cvs| ==>
                    cvs[j] == if Hb(tids, old(cvs), acquire, j) then Join(old(cvs)[j], old(cvs)[acquire])
                      else old(cvs)[j]
        invariant badSynchronization == old(badSynchronization)
        decreases k
      {
        if Hb(tids, cvs, acquire, k) {
          var _ := Synchronize(acquire, k);
        }
        k := k - 1;
      }
    }

    /** All clocks but the acquire's are as they were, and its own has gathered what these heads bring. */
    ghost predicate Gathering(was: seq<Clock>, heads: seq<nat>, acquire: nat)
      reads this
    {
      && |cvs| == |tids| == |was| && acquire < |tids| && cvs == was[acquire := cvs[acquire]]
      && Exact(tids, was, rel) && Gathers(tids, rel + LateEdges(heads, acquire), cvs[acquire], acquire)
    }

    /** The acquire takes in one more head, unless it has synchronized with it. */
    method TakeOne(h: nat, acquire: nat, ghost was: seq<Clock>, ghost heads: seq<nat>) returns (updated: bool)
      requires Gathering(was, heads, acquire) && h < |tids| && h != acquire
      modifies this`cvs, this`badSynchronization
      ensures Gathering(was, heads + [h], acquire) && (!updated ==> cvs == old(cvs))
      ensures badSynchronization == (old(badSynchronization) || h > acquire)
    {
      hide Exact, Gathers, Join, LateEdges;
      updated := false;
      GatherNext(tids, was, rel, heads, cvs[acquire], h, acquire);
      if !Hb(tids, cvs, h, acquire) {
        updated := Synchronize(h, acquire);
      }
    }

    /** The acquire takes in the clocks of the heads it has not synchronized with. */
    method TakeIn(heads: seq<nat>, acquire: nat) returns (updated: bool)
      requires Valid() && acquire < |tids| && forall h :: h in heads ==> h < |tids| && h != acquire
      modifies this`cvs, this`badSynchronization
      ensures Gathering(old(cvs), heads, acquire) && (!updated ==> cvs == old(cvs))
      ensures badSynchronization == (old(badSynchronization) || AnyAfter(heads, acquire))
    {
      NothingGathered(tids, cvs, rel, acquire);
      NoneAfter(acquire);
      assert Gathering(cvs, [], acquire);
      hide Gathering, AnyAfter;
      updated := false;
      for i := 0 to |heads|
        invariant Gathering(old(cvs), heads[..i], acquire) && (!updated ==> cvs == old(cvs))
        invariant badSynchronization == (old(badSynchronization) || AnyAfter(heads[..i], acquire))
      {
        var h := heads[i];
        assert h in heads && heads[..i + 1] == heads[..i] + [h];
        LateSplit(heads[..i], h, acquire);
        var ok := TakeOne(h, acquire, old(cvs), heads[..i]);
        updated := updated || ok;
      }
      assert heads[..|heads|] == heads;
    }

    /**
     * Release sequences found complete late: the acquire takes in the clocks of their heads and then passes its own
     * on once. A head after the acquire cannot be taken in.
     */
    method SynchronizeLate(heads: seq<nat>, acquire: nat) returns (updated: bool)
      requires Valid() && acquire < |tids| && forall h :: h in heads ==> h < |tids| && h != acquire
      modifies this`cvs, this`badSynchronization, this`rel
      ensures Valid() && rel == old(rel) + LateEdges(heads, acquire)
      ensures badSynchronization == (old(badSynchronization) || AnyAfter(heads, acquire))
      ensures !updated ==> cvs == old(cvs)
    {
      assert |cvs| == |tids|;
      hide Exact, Gathers;
      ghost var was := cvs;
      updated := TakeIn(heads, acquire);
      ghost var c := cvs[acquire];
      if updated {
        PropagateClockvector(acquire);
      }
      GatherAll(tids, was, cvs, rel, heads, c, acquire);
      rel := rel + LateEdges(heads, acquire);
    }

    method HappensBefore(a: nat, b: nat) returns (r: bool)
      requires Valid() && a < |tids| && b < |tids|
      ensures r <==> Reach(rel, a, b)
    {
      r := Hb(tids, cvs, a, b);
    }
  }

  // ----- every run, and why the moment of synchronization does not matter -----

  datatype HbStep = Act(tid: nat, creation: Option<nat>) | Sync(release: nat, acquire: nat)

  datatype HbState = HbState(tids: seq<nat>, cvs: seq<Clock>, rel: Rel)

  ghost const EMPTY_STATE := HbState([], [], {})

  /** A new action takes its parent's clock over. */
  ghost predicate Appends(s: HbState, tid: nat, creation: Option<nat>, parent: Option<nat>, s': HbState) {
    && IsParent(s.tids, tid, creation, parent) && |s.cvs| == |s.tids|
    && s' == HbState(s.tids + [tid], s.cvs + [Create(ParentClock(s.cvs, parent), tid, |s.tids| + 1)],
                     s.rel + ParentEdge(parent, |s.tids|))
  }

  /** What one step does: a new action, or a synchronization at any later time. */
  ghost predicate Steps(s: HbState, step: HbStep, s': HbState) {
    match step
    case Act(tid, creation) => exists parent: Option<nat> :: Appends(s, tid, creation, parent, s')
    case Sync(release, acquire) =>
      && release < acquire < |s.tids| == |s.cvs|
      && s'.tids == s.tids && Propagated(s.tids, s.cvs, s'.cvs, release, acquire)
      && s'.rel == s.rel + {(release, acquire)}
  }

  ghost predicate IsHbRun(ss: seq<HbState>, steps: seq<HbStep>) {
    && |ss| == |steps| + 1 && ss[0] == EMPTY_STATE
    && forall i :: 0 <= i < |steps| ==> Steps(ss[i], steps[i], ss[i + 1])
  }

  /** In every run, happens-before by clocks is reachability by program order, creation and synchronization. */
  lemma {:induction false} RunExact(ss: seq<HbState>, steps: seq<HbStep>, i: nat)
    requires IsHbRun(ss, steps) && i < |ss|
    ensures Exact(ss[i].tids, ss[i].cvs, ss[i].rel)
  {
    hide Propagated, IsParent, ParentEdge;
    if i > 0 {
      var s := ss[i - 1];
      RunExact(ss, steps, i - 1);
      assert Steps(s, steps[i - 1], ss[i - 1 + 1]);
      match steps[i - 1]
      case Act(tid, creation) =>
        var parent: Option<nat> :| Appends(s, tid, creation, parent, ss[i]);
        NewExact(s.tids, s.cvs, s.rel, tid, creation, parent);
      case Sync(release, acquire) => SyncExact(s.tids, s.cvs, ss[i].cvs, s.rel, release, acquire);
    }
  }

  /** What is recorded once stays. */
  lemma {:induction false} RunGrows(ss: seq<HbState>, steps: seq<HbStep>, i: nat, j: nat)
    requires IsHbRun(ss, steps) && i <= j < |ss|
    ensures ss[i].tids <= ss[j].tids && ss[i].rel <= ss[j].rel
    decreases j
  {
    hide Propagated, IsParent, ParentEdge;
    if i < j {
      RunGrows(ss, steps, i, j - 1);
      assert Steps(ss[j - 1], steps[j - 1], ss[j - 1 + 1]);
      match steps[j - 1]
      case Act(tid, creation) =>
        var parent: Option<nat> :| Appends(ss[j - 1], tid, creation, parent, ss[j]);
      case Sync(release, acquire) =>
    }
  }

  /** In every run, the action that created a thread happens before everything the thread does. */
  lemma RunCreates(ss: seq<HbState>, steps: seq<HbStep>, i: nat, j: nat, c: nat, a: nat)
    requires IsHbRun(ss, steps) && i < j < |ss| && steps[i].Act? && steps[i].creation == Some(c)
    requires steps[i].tid !in ss[i].tids && a < |ss[j].tids| && ss[j].tids[a] == steps[i].tid
    ensures Reach(ss[j].rel, c, a)
  {
    hide Propagated, Reach, Exact;
    var n, tid := |ss[i].tids|, steps[i].tid;
    assert Steps(ss[i], steps[i], ss[i + 1]);
    var parent: Option<nat> :| Appends(ss[i], tid, Some(c), parent, ss[i + 1]);
    CreationFirst(ss[i].tids, ss[i].rel, tid, Some(c), parent);
    RunGrows(ss, steps, i + 1, j);
    ReachMono(ss[i + 1].rel, ss[j].rel, c, n);
    assert ss[j].tids[n] == tid;
    RunExact(ss, steps, j);
    assert forall x :: 0 <= x < n ==> ss[j].tids[x] in ss[i].tids;
    ExactThread(ss[j].tids, ss[j].cvs, ss[j].rel, n, a);
    ReachTrans(ss[j].rel, c, n, a);
  }

  lemma ExactThread(tids: seq<nat>, cvs: seq<Clock>, rel: Rel, a: nat, b: nat)
    requires Exact(tids, cvs, rel) && a <= b < |tids| && tids[a] == tids[b]
    ensures Reach(rel, a, b)
  {
    ReachRefl(rel, a);
  }

  /** Exact clocks are determined by the relation. */
  lemma ExactUnique(tids: seq<nat>, cvs: seq<Clock>, cvs': seq<Clock>, rel: Rel, b: nat, t: nat)
    requires Exact(tids, cvs, rel) && Exact(tids, cvs', rel) && b < |tids|
    ensures At(cvs[b], t) == At(cvs'[b], t)
  {
    EntryBelow(tids, cvs, cvs', rel, b, t);
    EntryBelow(tids, cvs', cvs, rel, b, t);
  }

  lemma EntryBelow(tids: seq<nat>, cvs: seq<Clock>, cvs': seq<Clock>, rel: Rel, b: nat, t: nat)
    requires Exact(tids, cvs, rel) && Exact(tids, cvs', rel) && b < |tids|
    ensures At(cvs[b], t) <= At(cvs'[b], t)
  {
    hide Reach, Forward, ProgramOrder;
    assert Genuine(tids, cvs[b]);
    if At(cvs[b], t) > 0 {
      var a := At(cvs[b], t) - 1;
      assert Hb(tids, cvs, a, b);
      assert Reach(rel, a, b);
      assert Hb(tids, cvs', a, b);
    }
  }

  /** Two runs that end with the same actions and edges end with the same clocks, whenever each edge was found. */
  lemma LateIsEarly(ss: seq<HbState>, steps: seq<HbStep>, ss': seq<HbState>, steps': seq<HbStep>, b: nat, t: nat)
    requires IsHbRun(ss, steps) && IsHbRun(ss', steps')
    requires var s, s' := ss[|steps|], ss'[|steps'|];
             s.tids == s'.tids && s.rel == s'.rel && b < |s.tids|
    ensures b < |ss[|steps|].cvs| && b < |ss'[|steps'|].cvs|
    ensures At(ss[|steps|].cvs[b], t) == At(ss'[|steps'|].cvs[b], t)
  {
    var s, s' := ss[|steps|], ss'[|steps'|];
    RunExact(ss, steps, |steps|);
    RunExact(ss', steps', |steps'|);
    ExactUnique(s.tids, s.cvs, s'.cvs, s.rel, b, t);
  }
}
