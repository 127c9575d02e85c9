/** Finite relations on natural numbers: reachability, acyclicity, and total orders. */
module Relations {

  type Rel = set<(nat, nat)>

  /** p is a path from a to b, following pairs of rel. A path has at least one vertex. */
  ghost predicate IsPath(rel: Rel, p: seq<nat>, a: nat, b: nat) {
    && |p| > 0 && p[0] == a && p[|p| - 1] == b
    && forall i :: 0 <= i < |p| - 1 ==> (p[i], p[i + 1]) in rel
  }

  /** Reflexive and transitive reachability. */
  ghost predicate Reach(rel: Rel, a: nat, b: nat) {
    exists p :: IsPath(rel, p, a, b)
  }

  ghost predicate Acyclic(rel: Rel) {
    forall a, b :: (a, b) in rel ==> !Reach(rel, b, a)
  }

  lemma ReachRefl(rel: Rel, a: nat)
    ensures Reach(rel, a, a)
  {
    assert IsPath(rel, [a], a, a);
  }

  lemma ReachPair(rel: Rel, a: nat, b: nat)
    requires (a, b) in rel
    ensures Reach(rel, a, b)
  {
    assert IsPath(rel, [a, b], a, b);
  }

  lemma ReachTrans(rel: Rel, a: nat, b: nat, c: nat)
    requires Reach(rel, a, b) && Reach(rel, b, c)
    ensures Reach(rel, a, c)
  {
    var p :| IsPath(rel, p, a, b);
    var q :| IsPath(rel, q, b, c);
    var r := p + q[1..];
    forall i | 0 <= i < |r| - 1
      ensures (r[i], r[i + 1]) in rel
    {
      if i >= |p| - 1 {
        assert r[i] == q[i - |p| + 1] && r[i + 1] == q[i - |p| + 2];
      }
    }
    assert IsPath(rel, r, a, c);
  }

  lemma ReachMono(rel: Rel, rel': Rel, a: nat, b: nat)
    requires rel <= rel' && Reach(rel, a, b)
    ensures Reach(rel', a, b)
  {
    var p :| IsPath(rel, p, a, b);
    assert IsPath(rel', p, a, b);
  }

  /** A nontrivial path ends with a pair. */
  lemma ReachLast(rel: Rel, a: nat, b: nat) returns (c: nat)
    requires Reach(rel, a, b) && a != b
    ensures (c, b) in rel && Reach(rel, a, c)
  {
    var p :| IsPath(rel, p, a, b);
    var k := |p| - 2;
    c := p[k];
    assert (p[k], p[k + 1]) in rel;
    assert IsPath(rel, p[..k + 1], a, c);
  }

  /** A set closed under rel contains whatever its members reach. */
  lemma {:induction false} ReachClosed(rel: Rel, S: set<nat>, a: nat, b: nat)
    requires forall x, y :: x in S && (x, y) in rel ==> y in S
    requires a in S && Reach(rel, a, b)
    ensures b in S
  {
    var p :| IsPath(rel, p, a, b);
    PathClosed(rel, S, p, a, b);
  }

  lemma {:induction false} PathClosed(rel: Rel, S: set<nat>, p: seq<nat>, a: nat, b: nat)
    requires forall x, y :: x in S && (x, y) in rel ==> y in S
    requires a in S && IsPath(rel, p, a, b)
    ensures b in S
    decreases |p|
  {
    if |p| > 1 {
      PathClosed(rel, S, p[1..], p[1], b);
    }
  }

  /** What one more pair adds to reachability. */
  lemma ReachAdd(rel: Rel, x: nat, y: nat, a: nat, b: nat)
    ensures Reach(rel + {(x, y)}, a, b) <==>
            Reach(rel, a, b) || (Reach(rel, a, x) && Reach(rel, y, b))
  {
    var rel' := rel + {(x, y)};
    if Reach(rel', a, b) {
      var p :| IsPath(rel', p, a, b);
      PathAdd(rel, x, y, p, a, b);
    }
    if Reach(rel, a, b) {
      ReachMono(rel, rel', a, b);
    }
    if Reach(rel, a, x) && Reach(rel, y, b) {
      ReachMono(rel, rel', a, x);
      ReachMono(rel, rel', y, b);
      ReachPair(rel', x, y);
      ReachTrans(rel', a, x, y);
      ReachTrans(rel', a, y, b);
    }
  }

  lemma {:induction false} PathAdd(rel: Rel, x: nat, y: nat, p: seq<nat>, a: nat, b: nat)
    requires IsPath(rel + {(x, y)}, p, a, b)
    ensures Reach(rel, a, b) || (Reach(rel, a, x) && Reach(rel, y, b))
    decreases |p|
  {
    if |p| == 1 {
      ReachRefl(rel, a);
    } else {
      var c := p[1];
      assert (p[0], p[1]) in rel + {(x, y)};
      PathAdd(rel, x, y, p[1..], c, b);
      if (a, c) in rel {
        ReachPair(rel, a, c);
        if Reach(rel, c, b) {
          ReachTrans(rel, a, c, b);
        } else {
          ReachTrans(rel, a, c, x);
        }
      } else {
        ReachRefl(rel, a);
      }
    }
  }

  /** Adding a pair to an acyclic relation keeps it acyclic exactly when the reverse path is absent. */
  lemma AcyclicAdd(rel: Rel, x: nat, y: nat)
    requires Acyclic(rel)
    ensures Acyclic(rel + {(x, y)}) <==> !Reach(rel + {(x, y)}, y, x)
  {
    var rel' := rel + {(x, y)};
    assert (x, y) in rel';
    if !Reach(rel', y, x) {
      forall a, b | (a, b) in rel'
        ensures !Reach(rel', b, a)
      {
        ReachAdd(rel, x, y, b, a);
        ReachAdd(rel, x, y, y, x);
        if (a, b) in rel && Reach(rel, b, x) && Reach(rel, y, a) {
          ReachPair(rel, a, b);
          ReachTrans(rel, y, a, b);
          ReachTrans(rel, y, b, x);
        }
      }
    }
  }

  lemma AcyclicMono(rel: Rel, rel': Rel)
    requires rel <= rel' && Acyclic(rel')
    ensures Acyclic(rel)
  {
    forall a, b | (a, b) in rel
      ensures !Reach(rel, b, a)
    {
      if Reach(rel, b, a) {
        ReachMono(rel, rel', b, a);
      }
    }
  }

  // ----- finding an element that points outside -----

  ghost function ReachSet(rel: Rel, n: nat, x: nat): set<nat> {
    set y: nat | y < n && Reach(rel, x, y)
  }

  /** In an acyclic relation, every nonempty set has an element with no successor in the set. */
  lemma SinkExists(rel: Rel, n: nat, T: set<nat>) returns (x: nat)
    requires Acyclic(rel) && T != {}
    requires forall t :: t in T ==> t < n
    ensures x in T && forall y :: y in T ==> (x, y) !in rel
  {
    x := MinReach(rel, n, T);
    forall y | y in T
      ensures (x, y) !in rel
    {
      if (x, y) in rel {
        ReachSmaller(rel, n, x, y);
      }
    }
  }

  lemma {:induction false} MinReach(rel: Rel, n: nat, T: set<nat>) returns (x: nat)
    requires T != {}
    ensures x in T && forall y :: y in T ==> |ReachSet(rel, n, x)| <= |ReachSet(rel, n, y)|
    decreases |T|
  {
    x :| x in T;
    if T != {x} {
      var rest := T - {x};
      assert T == rest + {x};
      var z := MinReach(rel, n, rest);
      if |ReachSet(rel, n, z)| < |ReachSet(rel, n, x)| {
        x := z;
      }
    }
  }

  lemma ReachSmaller(rel: Rel, n: nat, x: nat, y: nat)
    requires Acyclic(rel) && (x, y) in rel && x < n
    ensures |ReachSet(rel, n, y)| < |ReachSet(rel, n, x)|
  {
    var X, Y := ReachSet(rel, n, x), ReachSet(rel, n, y);
    ReachPair(rel, x, y);
    ReachRefl(rel, x);
    forall z | z in Y
      ensures z in X
    {
      ReachTrans(rel, x, y, z);
    }
    assert x in X && x !in Y;
    SmallerSubset(Y, X);
  }

  lemma SmallerSubset(A: set<nat>, B: set<nat>)
    requires A < B
    ensures |A| < |B|
  {
    assert B == A + (B - A);
    assert B - A != {};
  }

  ghost function Below(n: nat): (s: set<nat>)
    ensures forall x :: x in s <==> 0 <= x < n
  {
    if n == 0 then {} else Below(n - 1) + {n - 1}
  }

  lemma {:induction false} SubsetOfBelow(S: set<nat>, n: nat)
    requires forall x :: x in S ==> x < n
    ensures |S| <= n
    decreases n
  {
    if n > 0 {
      SubsetOfBelow(S - {n - 1}, n - 1);
    } else {
      assert S == {};
    }
  }

  // ----- orders -----

  ghost predicate Distinct(s: seq<nat>) {
    forall i, j :: 0 <= i < j < |s| ==> s[i] != s[j]
  }

  /** a is at an earlier position of the order than b. */
  ghost predicate Precedes(order: seq<nat>, a: nat, b: nat) {
    exists i, j :: 0 <= i < j < |order| && order[i] == a && order[j] == b
  }

  /** b is the immediate successor of a in the order. */
  ghost predicate Adjacent(order: seq<nat>, a: nat, b: nat) {
    exists i :: 0 <= i < |order| - 1 && order[i] == a && order[i + 1] == b
  }

  /** A total order of the numbers below n. */
  ghost predicate TotalOrder(order: seq<nat>, n: nat) {
    && Distinct(order)
    && (forall x :: x in order ==> x < n)
    && (forall x: nat :: x < n ==> x in order)
  }

  /** An order that agrees with every pair also agrees with every nontrivial path. */
  lemma {:induction false} OrderFollowsReach(rel: Rel, order: seq<nat>, a: nat, b: nat)
    requires Distinct(order) && Reach(rel, a, b) && a != b
    requires forall x, y :: (x, y) in rel ==> Precedes(order, x, y)
    ensures Precedes(order, a, b)
  {
    var p :| IsPath(rel, p, a, b);
    OrderFollowsPath(rel, order, p, a, b);
  }

  lemma {:induction false} OrderFollowsPath(rel: Rel, order: seq<nat>, p: seq<nat>, a: nat, b: nat)
    requires Distinct(order) && IsPath(rel, p, a, b) && |p| > 1
    requires forall x, y :: (x, y) in rel ==> Precedes(order, x, y)
    ensures Precedes(order, a, b)
    decreases |p|
  {
    assert (p[0], p[1]) in rel;
    if |p| > 2 {
      OrderFollowsPath(rel, order, p[1..], p[1], b);
      PrecedesTrans(order, a, p[1], b);
    }
  }

  lemma PrecedesTrans(order: seq<nat>, a: nat, b: nat, c: nat)
    requires Distinct(order) && Precedes(order, a, b) && Precedes(order, b, c)
    ensures Precedes(order, a, c)
  {
  }

  lemma PrecedesIrreflexive(order: seq<nat>, a: nat, b: nat)
    requires Distinct(order) && Precedes(order, a, b)
    ensures a != b && !Precedes(order, b, a)
  {
  }

  lemma OrderMakesAcyclic(rel: Rel, order: seq<nat>)
    requires Distinct(order)
    requires forall x, y :: (x, y) in rel ==> Precedes(order, x, y)
    ensures Acyclic(rel)
  {
    forall a, b | (a, b) in rel
      ensures !Reach(rel, b, a)
    {
      assert Precedes(order, a, b);
      PrecedesIrreflexive(order, a, b);
      if Reach(rel, b, a) {
        OrderFollowsReach(rel, order, b, a);
      }
    }
  }
}
