/** In a run with settled clocks the order so far keeps to every rule, and the clocks always decide what comes next. */
module ScRespected {
  import opened Relations
  import opened GraphTheory
  import opened Clocks
  import opened ScTheory
  import opened ScPasses
  import opened ScChoices
  import opened ScGeneration
  import opened ScSearch
  import opened ScFixpoint
  import opened ScSolutions
  import opened ScSettled
  import opened ScRoutes
  import opened ScOrders

  // ----- what the order so far keeps to -----

  /** Whatever an emitted action follows was emitted before it. */
  ghost predicate FollowsFirst(tr: ScTrace, out: seq<nat>) {
    forall b: nat, a: nat {:trigger Follows(tr, b, a)} :: Follows(tr, b, a) && a in out ==> Precedes(out, b, a)
  }

  /** A third write emitted after the write that is read comes after the read. */
  ghost predicate ThirdFirst(tr: ScTrace, out: seq<nat>) {
    forall r: nat, w2: nat {:trigger Third(tr, r, w2)} ::
      Third(tr, r, w2) && Precedes(out, tr[r].rf, w2) ==> Precedes(out, r, w2)
  }

  /** The clock of an emitted action names only what was emitted before it. */
  ghost predicate Past(tr: ScTrace, out: seq<nat>, s: Vectors) {
    forall z: nat, b: nat {:trigger Named(s, z, tr[b].tid, b)} ::
      z in out && b < |tr| && Named(s, z, tr[b].tid, b) ==> b == z || Precedes(out, b, z)
  }

  /** Whatever a choice put first is named by what it put after. */
  ghost predicate Forced(tr: ScTrace, out: seq<nat>, s: Vectors) {
    forall b: nat, a: nat {:trigger Chosen(tr, out, b, a)} :: Chosen(tr, out, b, a) ==> Named(s, a, tr[b].tid, b)
  }

  ghost predicate Respects(tr: ScTrace, out: seq<nat>, s: Vectors) {
    FollowsFirst(tr, out) && ThirdFirst(tr, out) && Past(tr, out, s) && Forced(tr, out, s)
  }

  lemma OrderedDistinct(tr: ScTrace, out: seq<nat>)
    requires Ordered(tr, out)
    ensures Distinct(out)
  {
  }

  /** One more action at the end. */
  lemma PrecedesEnd(out: seq<nat>, a: nat, x: nat, y: nat)
    requires a !in out
    ensures Precedes(out + [a], x, y) <==> Precedes(out, x, y) || (x in out && y == a)
  {
    var o := out + [a];
    if Precedes(o, x, y) {
      var i, j :| 0 <= i < j < |o| && o[i] == x && o[j] == y;
      if j < |out| {
        assert out[i] == x && out[j] == y;
      } else {
        assert out[i] == x;
      }
    }
    if Precedes(out, x, y) {
      var i, j :| 0 <= i < j < |out| && out[i] == x && out[j] == y;
      assert o[i] == x && o[j] == y;
    }
    if x in out && y == a {
      var i :| 0 <= i < |out| && out[i] == x;
      assert o[i] == x && o[|out|] == a;
    }
  }

  /** Of an emitted action and a conflicting write of another thread, one was chosen to come first. */
  lemma ChosenElse(tr: ScTrace, out: seq<nat>, b: nat, a: nat)
    requires b in out && b < |tr| && a < |tr| && tr[a].write && tr[a].loc == tr[b].loc && tr[a].tid != tr[b].tid
    ensures Chosen(tr, out, b, a) || Precedes(out, a, b)
  {
    var i :| 0 <= i < |out| && out[i] == b;
    if a in out[..i] {
      var j :| 0 <= j < i && out[..i][j] == a;
      assert out[j] == a;
    }
  }

  // ----- the orderings that count lie in what is left -----

  lemma CompleteRead(tr: ScTrace, threads: nat, r: nat)
    requires Complete(tr, threads) && r < |tr| && tr[r].read
    ensures tr[r].rf < |tr| && tr[tr[r].rf].write && tr[tr[r].rf].loc == tr[r].loc
  {
  }

  /** What comes before a read comes before the write it reads, also in the order so far. */
  lemma BeforeBoth(tr: ScTrace, threads: nat, out: seq<nat>, s: Vectors, r: nat, w2: nat)
    requires Complete(tr, threads) && IsOrder(tr, s) && Forced(tr, out, s) && Third(tr, r, w2) && tr[r].rf in out
    requires Named(s, r, tr[w2].tid, w2)
    ensures Precedes(out, w2, tr[r].rf)
  {
    hide Complete, Chosen, Precedes;
    CompleteRead(tr, threads, r);
    ChosenElse(tr, out, tr[r].rf, w2);
    assert RulesAt(tr, s, r, w2);
  }

  /** An emitted third write that comes after the write that is read comes after the read. */
  lemma ReadFirst(tr: ScTrace, out: seq<nat>, s: Vectors, r: nat, w2: nat)
    requires ThirdFirst(tr, out) && Past(tr, out, s) && Third(tr, r, w2) && w2 in out
    requires Named(s, w2, tr[tr[r].rf].tid, tr[r].rf)
    ensures Precedes(out, r, w2)
  {
    hide Precedes;
    assert Precedes(out, tr[r].rf, w2);
  }

  /** No edge leads from what is left to what has been emitted. */
  lemma StaysLeft(tr: ScTrace, threads: nat, out: seq<nat>, s: Vectors, y: nat, z: nat)
    requires Complete(tr, threads) && IsOrder(tr, s) && Respects(tr, out, s) && y < |tr| && z < |tr|
    requires Edge(tr, out, s, y, z) && y !in out
    ensures z !in out
  {
    hide Follows, IsOrder, Named, Complete, Forced;
    if z in out && !Follows(tr, y, z) && Ruled(tr, s, y, z) {
      if Third(tr, y, z) && Named(s, z, tr[tr[y].rf].tid, tr[y].rf) {
        ReadFirst(tr, out, s, y, z);
      } else {
        var r: nat :| Third(tr, r, y) && tr[r].rf == z && Named(s, r, tr[y].tid, y);
        BeforeBoth(tr, threads, out, s, r, y);
      }
    }
  }

  /** Such edges are in the clocks. */
  lemma LeftOrders(tr: ScTrace, out: seq<nat>, s: Vectors, y: nat, z: nat)
    requires IsOrder(tr, s) && y < |tr| && z < |tr| && Edge(tr, out, s, y, z) && y !in out
    ensures Orders(tr, s, y, z)
  {
    hide Orders, Follows;
    if Ruled(tr, s, y, z) {
      if Third(tr, y, z) && Named(s, z, tr[tr[y].rf].tid, tr[y].rf) {
        assert RulesAt(tr, s, y, z);
      } else {
        var r: nat :| Third(tr, r, y) && tr[r].rf == z && Named(s, r, tr[y].tid, y);
        assert RulesAt(tr, s, r, y);
      }
    }
  }

  lemma LeqRefl(c: Clock)
    ensures Leq(c, c)
  {
  }

  lemma RouteShort(tr: ScTrace, out: seq<nat>, s: Vectors, p: seq<nat>)
    requires Route(tr, out, s, p) && |p| > 1
    ensures Route(tr, out, s, p[..|p| - 1])
  {
    hide Edge;
    var q := p[..|p| - 1];
    forall i: nat | i < |q| - 1
      ensures Hop(tr, out, s, q, i)
    {
      assert Hop(tr, out, s, p, i);
    }
  }

  /** A route from what is left stays there, and clocks grow along it. */
  lemma {:induction false} RouteUp(tr: ScTrace, threads: nat, out: seq<nat>, s: Vectors, p: seq<nat>)
    requires Complete(tr, threads) && IsOrder(tr, s) && Respects(tr, out, s) && Route(tr, out, s, p) && p[0] !in out
    ensures p[|p| - 1] !in out && Leq(s.cvs[p[0]].value, s.cvs[p[|p| - 1]].value)
    decreases |p|
  {
    hide Edge, Leq, Follows, RulesAt, Complete, Respects;
    var m := |p| - 1;
    if m == 0 {
      LeqRefl(s.cvs[p[0]].value);
    } else {
      RouteShort(tr, out, s, p);
      RouteUp(tr, threads, out, s, p[..m]);
      assert Hop(tr, out, s, p, m - 1);
      StaysLeft(tr, threads, out, s, p[m - 1], p[m]);
      LeftOrders(tr, out, s, p[m - 1], p[m]);
      LeqTrans(s.cvs[p[0]].value, s.cvs[p[m - 1]].value, s.cvs[p[m]].value);
    }
  }

  /** And what it starts from does not come after its end. */
  lemma NotBack(tr: ScTrace, threads: nat, out: seq<nat>, s: Vectors, p: seq<nat>)
    requires Complete(tr, threads) && IsOrder(tr, s) && Respects(tr, out, s) && Own(tr, s) && Route(tr, out, s, p)
             && |p| > 1 && p[0] !in out
    ensures !Leq(s.cvs[p[|p| - 1]].value, s.cvs[p[0]].value)
  {
    hide Edge, Follows, RulesAt, Complete, Respects;
    var m := |p| - 1;
    var b, a := p[m - 1], p[m];
    RouteShort(tr, out, s, p);
    RouteUp(tr, threads, out, s, p[..m]);
    assert Hop(tr, out, s, p, m - 1);
    LeftOrders(tr, out, s, b, a);
    var t := tr[a].tid;
    assert Since(s.cvs[a].value, t, a);
    assert At(s.cvs[p[0]].value, t) <= At(s.cvs[b].value, t) <= a;
  }

  lemma OrderUp(tr: ScTrace, s: Vectors, x: nat, y: nat)
    requires IsOrder(tr, s) && Started(tr) && x <= y < |tr| && tr[x].tid == tr[y].tid
    ensures Leq(s.cvs[x].value, s.cvs[y].value)
  {
    if x < y {
      ThreadGrows(tr, s, x, y);
    } else {
      LeqRefl(s.cvs[x].value);
    }
  }

  /** Once an action of a thread is left, so are the later ones. */
  lemma LaterLeft(tr: ScTrace, lists: Lists, out: seq<nat>, x: nat, y: nat)
    requires Split(tr, lists, out) && x <= y < |tr| && tr[x].tid == tr[y].tid && x !in out
    ensures y !in out
  {
    assert Somewhere(tr, lists, out, x);
    var l := lists[tr[x].tid];
    assert Increasing(l) && After(tr, l, out, tr[x].tid);
  }

  /** What a clock names of what is left has its own clock taken in, and does not name it back. */
  lemma NamedUp(tr: ScTrace, threads: nat, g: Gen, a: nat, x: nat)
    requires Complete(tr, threads) && IsOrder(tr, g.s) && Respects(tr, g.out, g.s) && Backed(tr, g.out, g.s)
             && Own(tr, g.s) && Started(tr) && Split(tr, g.lists, g.out)
    requires a < |tr| && x < |tr| && x !in g.out && Named(g.s, a, tr[x].tid, x) && (tr[x].tid == tr[a].tid ==> a < x)
    ensures Leq(g.s.cvs[x].value, g.s.cvs[a].value) && !Leq(g.s.cvs[a].value, g.s.cvs[x].value)
  {
    hide IsOrder, Respects, Hop, Leq, Own, Started, Split, Complete;
    var s, out, t := g.s, g.out, tr[x].tid;
    var c := s.cvs[a].value;
    assert BackedAt(tr, out, s, c, a, t);
    var p :| Route(tr, out, s, p) && p[|p| - 1] == a && p[0] == At(c, t) - 1 && tr[p[0]].tid == t;
    OrderSet(tr, s);
    LaterLeft(tr, g.lists, out, x, p[0]);
    OrderUp(tr, s, x, p[0]);
    RouteUp(tr, threads, out, s, p);
    LeqTrans(s.cvs[x].value, s.cvs[p[0]].value, c);
    NotBack(tr, threads, out, s, p);
    if Leq(c, s.cvs[x].value) {
      LeqTrans(c, s.cvs[x].value, s.cvs[p[0]].value);
    }
  }

  lemma OrderSet(tr: ScTrace, s: Vectors)
    requires IsOrder(tr, s)
    ensures |s.cvs| == |tr| && AllSet(s)
  {
  }

  /** No clock names a later action of its own thread that is left. */
  lemma OwnLast(tr: ScTrace, threads: nat, g: Gen, a: nat, x: nat)
    requires Complete(tr, threads) && IsOrder(tr, g.s) && Respects(tr, g.out, g.s) && Backed(tr, g.out, g.s)
             && Own(tr, g.s) && Started(tr) && Split(tr, g.lists, g.out)
    requires a < x < |tr| && x !in g.out && tr[x].tid == tr[a].tid
    ensures !Named(g.s, a, tr[x].tid, x)
  {
    hide IsOrder, Respects, Leq, Own, Started, Split, Complete, Backed;
    if Named(g.s, a, tr[x].tid, x) {
      NamedUp(tr, threads, g, a, x);
      OrderUp(tr, g.s, a, x);
    }
  }

  /** The front whose clock leaves the most room. */
  lemma {:induction false} LeastFront(tr: ScTrace, lists: Lists, s: Vectors, threads: nat, n: nat) returns (m: nat)
    requires ListsOk(tr, lists) && n <= |lists| && |s.cvs| == |tr| && AllSet(s)
             && exists i :: 0 <= i < n && lists[i] != []
    ensures m < n && lists[m] != [] && lists[m][0] < |tr|
    ensures forall i {:trigger lists[i]} :: 0 <= i < n && lists[i] != [] ==>
              && lists[i][0] < |tr|
              && ClockSlack(s.cvs[lists[i][0]].value, |tr|, threads) <= ClockSlack(s.cvs[lists[m][0]].value, |tr|,
                   threads)
    decreases n
  {
    Fronts(tr, lists);
    if exists i :: 0 <= i < n - 1 && lists[i] != [] {
      m := LeastFront(tr, lists, s, threads, n - 1);
      if lists[n - 1] != []
         && ClockSlack(s.cvs[lists[n - 1][0]].value, |tr|, threads) > ClockSlack(s.cvs[lists[m][0]].value, |tr|,
              threads) {
        m := n - 1;
      }
    } else {
      m := n - 1;
    }
  }

  /** A clock below another, with no more room, is the same. */
  lemma SlackSame(c: Clock, d: Clock, n: nat, threads: nat)
    requires Leq(c, d) && ClockBounded(c, n, threads) && ClockBounded(d, n, threads)
             && ClockSlack(c, n, threads) <= ClockSlack(d, n, threads)
    ensures Leq(d, c)
  {
    forall t: nat
      ensures At(d, t) <= At(c, t)
    {
      assert At(d, t) <= n && (t >= threads ==> At(d, t) == 0);
      ClockSlackLess(c, d, n, threads, t);
    }
  }

  /** What a run has left. */
  ghost predicate Left(lists: Lists) {
    exists i :: 0 <= i < |lists| && lists[i] != []
  }

  /** Settled clocks leave some front unblocked, if what has been emitted keeps to them. */
  lemma SettledUnblocks(tr: ScTrace, threads: nat, g: Gen)
    requires Complete(tr, threads) && GenOk(tr, threads, g) && IsOrder(tr, g.s) && Respects(tr, g.out, g.s)
             && Backed(tr, g.out, g.s) && Own(tr, g.s) && Started(tr) && Left(g.lists)
    ensures ClocksDecide(tr, threads, g)
  {
    hide IsOrder, Respects, Backed, Own, Started, ClockSlack, Complete, After, Somewhere, Ordered;
    Fronts(tr, g.lists);
    var m := LeastFront(tr, g.lists, g.s, threads, |g.lists|);
    var a := g.lists[m][0];
    assert ListOk(tr, g.lists[m], m) && tr[a].tid == m;
    forall i: nat | i < |g.lists| && i != m && g.lists[i] != []
      ensures !Since(g.s.cvs[a].value, i, g.lists[i][0])
    {
      var x := g.lists[i][0];
      assert ListOk(tr, g.lists[i], i) && tr[x].tid == i;
      FrontLeft(tr, g.lists, g.out, i);
      if Since(g.s.cvs[a].value, i, x) {
        NamedUp(tr, threads, g, a, x);
        SlackSame(g.s.cvs[x].value, g.s.cvs[a].value, |tr|, threads);
      }
    }
    assert !Blocked(g.lists, ClocksOf(g.s)[a], m);
  }

  lemma FrontLeft(tr: ScTrace, lists: Lists, out: seq<nat>, i: nat)
    requires ListsOk(tr, lists) && Split(tr, lists, out) && i < |lists| && lists[i] != []
    ensures lists[i][0] !in out
  {
    assert After(tr, lists[i], out, i) && ListOk(tr, lists[i], i);
  }

  // ----- passes keep the past -----

  lemma MergePast(tr: ScTrace, out: seq<nat>, s: Vectors, a: nat, b: nat)
    requires Ordered(tr, out) && a < |s.cvs| == |tr| && b < |tr| && AllSet(s) && Past(tr, out, s)
    requires a in out ==> Precedes(out, b, a)
    ensures Past(tr, out, Merge(tr, s, a, b).0)
  {
    var s' := Merge(tr, s, a, b).0;
    OrderedDistinct(tr, out);
    forall z: nat, x: nat | z in out && x < |tr| && Named(s', z, tr[x].tid, x)
      ensures x == z || Precedes(out, x, z)
    {
      if !Named(s, z, tr[x].tid, x) {
        assert z == a && Named(s, b, tr[x].tid, x);
        if x != b {
          PrecedesTrans(out, x, b, a);
        }
      }
    }
  }

  /** The final clocks f do not let a read name a third write that was chosen to come after what it reads. */
  ghost predicate Sound(tr: ScTrace, out: seq<nat>, f: Vectors) {
    forall r: nat, w2: nat {:trigger Third(tr, r, w2)} ::
      Third(tr, r, w2) && Chosen(tr, out, tr[r].rf, w2) ==> !Named(f, r, tr[w2].tid, w2)
  }

  lemma SettledSound(tr: ScTrace, out: seq<nat>, f: Vectors)
    requires IsOrder(tr, f) && Forced(tr, out, f)
    ensures Sound(tr, out, f)
  {
    hide Chosen;
    forall r: nat, w2: nat | Third(tr, r, w2) && Chosen(tr, out, tr[r].rf, w2)
      ensures !Named(f, r, tr[w2].tid, w2)
    {
      assert RulesAt(tr, f, r, w2);
    }
  }

  lemma {:induction false} ReadBackPast(tr: ScTrace, threads: nat, out: seq<nat>, s: Vectors, changed: bool, r: nat,
                                        l: seq<nat>, k: nat, f: Vectors)
    requires Complete(tr, threads) && Ordered(tr, out) && |s.cvs| == |tr| && AllSet(s) && r < |tr| && tr[r].read
             && tr[r].rf < |tr| && tr[r].rf != r && k <= |l| && Listed(tr, l) && OfOther(tr, r, l)
    requires ThirdFirst(tr, out) && Past(tr, out, s) && Sound(tr, out, f)
    requires r < |f.cvs| && f.cvs[r].Some? && Leq(s.cvs[r].value, f.cvs[r].value)
    ensures var s' := ReadBack(tr, s, changed, r, l, k).0;
            Past(tr, out, s') && AllSet(s') && s'.cvs[r] == s.cvs[r]
    decreases k
  {
    hide Complete, Past, Sound, Leq, Ordered, ThirdFirst, Chosen;
    if k > 0 {
      var w2, w := l[k - 1], tr[r].rf;
      if !tr[w2].write {
        ReadBackPast(tr, threads, out, s, changed, r, l, k - 1, f);
      } else {
        assert Third(tr, r, w2);
        var p := if Since(s.cvs[w2].value, tr[w].tid, w) then Merge(tr, s, w2, r) else (s, false);
        MergeSets(tr, s, w2, r);
        if Since(s.cvs[w2].value, tr[w].tid, w) {
          if w2 in out {
            ReadFirst(tr, out, s, r, w2);
          }
          MergePast(tr, out, s, w2, r);
        }
        if Since(p.0.cvs[r].value, tr[w2].tid, w2) {
          if w in out {
            NotChosen(tr, threads, out, s, f, r, w2);
          }
          MergePast(tr, out, p.0, w, w2);
          MergeSets(tr, p.0, w, w2);
        } else {
          ReadBackPast(tr, threads, out, p.0, changed || p.1, r, l, k - 1, f);
        }
      }
    }
  }

  lemma NotChosen(tr: ScTrace, threads: nat, out: seq<nat>, s: Vectors, f: Vectors, r: nat, w2: nat)
    requires Complete(tr, threads) && Sound(tr, out, f) && Third(tr, r, w2) && tr[r].rf in out
    requires r < |s.cvs| && s.cvs[r].Some? && r < |f.cvs| && f.cvs[r].Some? && Leq(s.cvs[r].value, f.cvs[r].value)
    requires Since(s.cvs[r].value, tr[w2].tid, w2)
    ensures Precedes(out, w2, tr[r].rf)
  {
    hide Complete, Chosen, Precedes;
    CompleteRead(tr, threads, r);
    ChosenElse(tr, out, tr[r].rf, w2);
    assert At(s.cvs[r].value, tr[w2].tid) <= At(f.cvs[r].value, tr[w2].tid);
    assert Named(f, r, tr[w2].tid, w2);
  }

  lemma {:induction false} ReadThreadsPast(tr: ScTrace, threads: nat, out: seq<nat>, s: Vectors, changed: bool, r: nat,
                                           t: nat, f: Vectors)
    requires Complete(tr, threads) && Ordered(tr, out) && |s.cvs| == |tr| && AllSet(s) && r < |tr| && tr[r].read
             && tr[r].rf < |tr| && tr[r].rf != r && t <= threads
    requires ThirdFirst(tr, out) && Past(tr, out, s) && Sound(tr, out, f)
    requires r < |f.cvs| && f.cvs[r].Some? && Leq(s.cvs[r].value, f.cvs[r].value)
    ensures var s' := ReadThreads(tr, s, changed, r, threads, t).0; Past(tr, out, s') && s'.cvs[r] == s.cvs[r]
    decreases threads - t
  {
    hide Complete, Past, Sound, Leq, Ordered, ThirdFirst, ReadBack;
    if t < threads {
      if t == tr[r].tid || t == tr[tr[r].rf].tid {
        ReadThreadsPast(tr, threads, out, s, changed, r, t + 1, f);
      } else {
        var l := OnObject(tr, tr[r].loc, t, |tr|);
        var p := ReadBack(tr, s, changed, r, l, |l|);
        ReadBackPast(tr, threads, out, s, changed, r, l, |l|, f);
        ReadThreadsPast(tr, threads, out, p.0, p.1, r, t + 1, f);
      }
    }
  }

  lemma FollowsPast(tr: ScTrace, out: seq<nat>, s: Vectors, a: nat, b: nat)
    requires Ordered(tr, out) && a < |s.cvs| == |tr| && b < |tr| && AllSet(s) && Past(tr, out, s)
    requires FollowsFirst(tr, out) && Follows(tr, b, a)
    ensures Past(tr, out, Merge(tr, s, a, b).0) && AllSet(Merge(tr, s, a, b).0)
  {
    hide Past, Follows, Ordered, Precedes;
    MergePast(tr, out, s, a, b);
    MergeSets(tr, s, a, b);
  }

  /** The clock of a after its own merges is that of the visit. */
  lemma VisitPast(tr: ScTrace, threads: nat, out: seq<nat>, s: Vectors, changed: bool, a: nat, last: Option<nat>,
                  f: Vectors)
    requires Complete(tr, threads) && Ordered(tr, out) && a < |s.cvs| == |tr| && AllSet(s) && ReadsOthers(tr)
    requires last.Some? ==> last.value < |tr| && Follows(tr, last.value, a)
    requires FollowsFirst(tr, out) && ThirdFirst(tr, out) && Past(tr, out, s) && Sound(tr, out, f)
    requires Grew(Visit(tr, s, changed, a, last, threads).0, f)
    ensures Past(tr, out, Visit(tr, s, changed, a, last, threads).0)
  {
    hide Complete, Past, Sound, Leq, Ordered, ThirdFirst, FollowsFirst, ReadThreads, Merge;
    CompleteAt(tr, threads, a);
    var s1 := if last.Some? then Merge(tr, s, a, last.value).0 else s;
    if last.Some? {
      FollowsPast(tr, out, s, a, last.value);
      MergeSets(tr, s, a, last.value);
    }
    var s2 := if tr[a].join.Some? then Merge(tr, s1, a, tr[a].join.value).0 else s1;
    if tr[a].join.Some? {
      assert Follows(tr, tr[a].join.value, a);
      FollowsPast(tr, out, s1, a, tr[a].join.value);
      MergeSets(tr, s1, a, tr[a].join.value);
    }
    if tr[a].read {
      var w := tr[a].rf;
      assert Follows(tr, w, a);
      FollowsPast(tr, out, s2, a, w);
      MergeSets(tr, s2, a, w);
      var p := Merge(tr, s2, a, w);
      ReadUnmoved(tr, p.0, p.1 && a < w, a, threads, 0);
      ReadThreadsPast(tr, threads, out, p.0, p.1 && a < w, a, 0, f);
    }
  }

  lemma {:induction false} ReadUnmoved(tr: ScTrace, s: Vectors, changed: bool, r: nat, threads: nat, t: nat)
    requires |s.cvs| == |tr| && AllSet(s) && r < |tr| && tr[r].rf < |tr| && tr[r].rf != r && t <= threads
    ensures ReadThreads(tr, s, changed, r, threads, t).0.cvs[r] == s.cvs[r]
    decreases threads - t
  {
    hide ReadBack;
    if t < threads {
      if t == tr[r].tid || t == tr[tr[r].rf].tid {
        ReadUnmoved(tr, s, changed, r, threads, t + 1);
      } else {
        var l := OnObject(tr, tr[r].loc, t, |tr|);
        var p := ReadBack(tr, s, changed, r, l, |l|);
        ReadBackSets(tr, s, changed, r, l, |l|);
        BackUnmoved(tr, s, changed, r, l, |l|);
        ReadUnmoved(tr, p.0, p.1, r, threads, t + 1);
      }
    }
  }

  lemma {:induction false} BackUnmoved(tr: ScTrace, s: Vectors, changed: bool, r: nat, l: seq<nat>, k: nat)
    requires |s.cvs| == |tr| && AllSet(s) && r < |tr| && tr[r].rf < |tr| && tr[r].rf != r && k <= |l| && Listed(tr, l)
    requires OfOther(tr, r, l)
    ensures ReadBack(tr, s, changed, r, l, k).0.cvs[r] == s.cvs[r]
    decreases k
  {
    if k > 0 {
      var w2, w := l[k - 1], tr[r].rf;
      if !tr[w2].write {
        BackUnmoved(tr, s, changed, r, l, k - 1);
      } else {
        var p := if Since(s.cvs[w2].value, tr[w].tid, w) then Merge(tr, s, w2, r) else (s, false);
        MergeSets(tr, s, w2, r);
        if !Since(p.0.cvs[r].value, tr[w2].tid, w2) {
          BackUnmoved(tr, p.0, changed || p.1, r, l, k - 1);
        }
      }
    }
  }

  lemma VisitGrew(tr: ScTrace, s: Vectors, changed: bool, a: nat, last: Option<nat>, threads: nat)
    requires Complete(tr, threads) && a < |s.cvs| == |tr| && AllSet(s) && (last.Some? ==> last.value < |tr|)
    ensures Grew(s, Visit(tr, s, changed, a, last, threads).0) && AllSet(Visit(tr, s, changed, a, last, threads).0)
  {
    NoStep(s, threads);
    VisitStep(tr, s, false, a, last, threads, s);
    assert Visit(tr, s, changed, a, last, threads).0 == Visit(tr, s, false, a, last, threads).0;
  }

  lemma {:induction false} PassGrew(tr: ScTrace, s: Vectors, changed: bool, a: nat, last: map<nat, nat>, threads: nat)
    requires Complete(tr, threads) && a <= |s.cvs| == |tr| && AllSet(s) && LastOk(tr, last)
    ensures Grew(s, Pass(tr, s, changed, a, last, threads).0)
    decreases |tr| - a
  {
    hide Visit, Complete, Grew;
    if a < |tr| {
      CompleteAt(tr, threads, a);
      var p := Visit(tr, s, changed, a, LastAct(tr, last, a), threads);
      VisitGrew(tr, s, changed, a, LastAct(tr, last, a), threads);
      PassGrew(tr, p.0, p.1, a + 1, last[tr[a].tid := a], threads);
      GrewTrans(s, p.0, Pass(tr, p.0, p.1, a + 1, last[tr[a].tid := a], threads).0);
    } else {
      GrewRefl(s);
    }
  }

  lemma {:induction false} PassPast(tr: ScTrace, threads: nat, out: seq<nat>, s: Vectors, changed: bool, a: nat,
                                    last: map<nat, nat>, f: Vectors)
    requires Complete(tr, threads) && Ordered(tr, out) && a <= |s.cvs| == |tr| && AllSet(s) && ReadsOthers(tr)
             && LastOk(tr, last) && Latest(tr, last, a)
    requires FollowsFirst(tr, out) && ThirdFirst(tr, out) && Past(tr, out, s) && Sound(tr, out, f)
    requires Grew(Pass(tr, s, changed, a, last, threads).0, f)
    ensures Past(tr, out, Pass(tr, s, changed, a, last, threads).0)
    decreases |tr| - a
  {
    hide Visit, Complete, Past, Latest, Follows, Sound, Ordered, FollowsFirst, ThirdFirst, Grew, ReadsOthers;
    if a < |tr| {
      CompleteAt(tr, threads, a);
      var l := LastAct(tr, last, a);
      if l.Some? {
        LastFollows(tr, last, a);
      }
      var p := Visit(tr, s, changed, a, l, threads);
      VisitGrew(tr, s, changed, a, l, threads);
      PassGrew(tr, p.0, p.1, a + 1, last[tr[a].tid := a], threads);
      GrewTrans(p.0, Pass(tr, p.0, p.1, a + 1, last[tr[a].tid := a], threads).0, f);
      VisitPast(tr, threads, out, s, changed, a, l, f);
      LatestNext(tr, last, a);
      PassPast(tr, threads, out, p.0, p.1, a + 1, last[tr[a].tid := a], f);
    }
  }

  lemma {:induction false} ComputedPast(tr: ScTrace, threads: nat, out: seq<nat>, s: Vectors, first: bool, f: Vectors)
    requires Complete(tr, threads) && Ordered(tr, out) && |s.cvs| == |tr| && AllSet(s) && Bounded(s, threads)
             && ReadsOthers(tr)
    requires FollowsFirst(tr, out) && ThirdFirst(tr, out) && Past(tr, out, s) && Sound(tr, out, f)
    requires f == Computed(tr, s, first, threads)
    ensures Past(tr, out, f)
    decreases first, Slack(s.cvs, |tr|, threads)
  {
    hide Pass, Moved, Slack, Complete, Bounded, Past, Sound, Ordered, FollowsFirst, ThirdFirst, Grew, ReadsOthers;
    var p := Pass(tr, s, first, 0, map[], threads);
    PassGrows(tr, s, first, threads);
    NothingYet(tr, s);
    GrewRefl(f);
    PassPast(tr, threads, out, s, first, 0, map[], f);
    if p.1 {
      ComputedPast(tr, threads, out, p.0, false, f);
    }
  }

  // ----- a choice -----

  lemma {:induction false} AfterActPast(tr: ScTrace, out: seq<nat>, s: Vectors, act: nat, l: seq<nat>, k: nat)
    requires Ordered(tr, out) && act < |tr| == |s.cvs| && k <= |l| && Listed(tr, l) && AllSet(s) && Past(tr, out, s)
    requires forall j {:trigger l[j]} :: 0 <= j < |l| ==> l[j] !in out
    ensures Past(tr, out, AfterAct(tr, s, act, l, k).0)
    decreases |l| - k
  {
    hide Past, Merge, Ordered;
    if k < |l| {
      MergePast(tr, out, s, l[k], act);
      AfterActPast(tr, out, s, act, l, k + 1);
    }
  }

  lemma {:induction false} UpdatePast(tr: ScTrace, out: seq<nat>, lists: Lists, s: Vectors, changed: bool, act: nat,
                                      i: nat)
    requires Ordered(tr, out) && act < |tr| == |s.cvs| && ListsIn(tr, lists) && AllSet(s) && i <= |lists|
             && Past(tr, out, s)
    requires forall t, j {:trigger lists[t][j]} :: 0 <= t < |lists| && 0 <= j < |lists[t]| ==> lists[t][j] !in out
    ensures Past(tr, out, UpdateConstraints(tr, lists, s, changed, act, i).0)
    decreases |lists| - i
  {
    hide Past, AfterAct, Ordered;
    if i < |lists| {
      if i == tr[act].tid {
        UpdatePast(tr, out, lists, s, changed, act, i + 1);
      } else {
        var p := AfterAct(tr, s, act, lists[i], 0);
        AfterActPast(tr, out, s, act, lists[i], 0);
        UpdatePast(tr, out, lists, p.0, changed || p.1, act, i + 1);
      }
    }
  }

  // ----- what has been emitted is named by the writes to come -----

  /** Act is named by some action of the list up to the j-th. */
  ghost predicate NamedUpTo(tr: ScTrace, s: Vectors, act: nat, l: seq<nat>, j: nat)
    requires act < |tr|
  {
    exists i: nat {:trigger l[i]} :: i <= j && i < |l| && Named(s, l[i], tr[act].tid, act)
  }

  lemma {:induction false} AfterActMarks(tr: ScTrace, s: Vectors, act: nat, l: seq<nat>, k: nat, j: nat)
    requires act < |tr| == |s.cvs| && k <= j < |l| && Listed(tr, l) && AllSet(s) && Ahead(tr, s, act, l) && Own(tr, s)
    requires tr[l[j]].write && tr[l[j]].loc == tr[act].loc
    ensures NamedUpTo(tr, AfterAct(tr, s, act, l, k).0, act, l, j)
    decreases |l| - k
  {
    if !tr[l[k]].write {
      AfterActMarks(tr, s, act, l, k + 1, j);
    } else if Since(s.cvs[l[k]].value, tr[act].tid, act) {
      assert Named(s, l[k], tr[act].tid, act);
    } else if tr[l[k]].loc == tr[act].loc {
      assert Named(AfterAct(tr, s, act, l, k).0, l[k], tr[act].tid, act);
    } else {
      AfterActMarks(tr, s, act, l, k + 1, j);
    }
  }

  lemma NamedUpToGrows(tr: ScTrace, s: Vectors, s': Vectors, act: nat, l: seq<nat>, j: nat)
    requires act < |tr| && Grew(s, s') && NamedUpTo(tr, s, act, l, j)
    ensures NamedUpTo(tr, s', act, l, j)
  {
    var i: nat :| i <= j && i < |l| && Named(s, l[i], tr[act].tid, act);
    NamedGrows(s, s', l[i], tr[act].tid, act);
  }

  lemma {:induction false} UpdateMarks(tr: ScTrace, lists: Lists, s: Vectors, changed: bool, act: nat, i: nat,
                                       t: nat, j: nat, threads: nat)
    requires act < |tr| == |s.cvs| && ListsIn(tr, lists) && AllSet(s) && i <= t < |lists| && t != tr[act].tid
             && Own(tr, s) && Bounded(s, threads)
    requires forall u {:trigger lists[u]} :: 0 <= u < |lists| && u != tr[act].tid ==> Ahead(tr, s, act, lists[u])
    requires j < |lists[t]| && tr[lists[t][j]].write && tr[lists[t][j]].loc == tr[act].loc
    ensures NamedUpTo(tr, UpdateConstraints(tr, lists, s, changed, act, i).0, act, lists[t], j)
    decreases |lists| - i
  {
    hide Own, Bounded, AfterAct, Grew, Since, Named;
    if i == tr[act].tid {
      UpdateMarks(tr, lists, s, changed, act, i + 1, t, j, threads);
    } else {
      var p := AfterAct(tr, s, act, lists[i], 0);
      AfterActStep(tr, s, act, lists[i], 0, threads);
      AfterActCalm(tr, s, act, lists[i], 0);
      if i == t {
        AfterActMarks(tr, s, act, lists[t], 0, j);
        UpdateStep(tr, lists, p.0, changed || p.1, act, i + 1, threads);
        NamedUpToGrows(tr, p.0, UpdateConstraints(tr, lists, p.0, changed || p.1, act, i + 1).0, act, lists[t], j);
      } else {
        SetsSame(s, p.0);
        OwnKept(tr, s, p.0);
        UpdateMarks(tr, lists, p.0, changed || p.1, act, i + 1, t, j, threads);
      }
    }
  }

  /** Clocks only grow when an action is taken. */
  lemma TakenGrows(tr: ScTrace, threads: nat, g: Gen, a: nat)
    requires Complete(tr, threads) && GenOk(tr, threads, g) && IsFront(tr, g.lists, a)
    ensures Grew(g.s, Taken(tr, threads, g, a).s)
  {
    hide Computed, UpdateConstraints, Split, Complete, Bounded, Grew;
    var lists := Pop(g.lists, tr[a].tid);
    PopOk(tr, g.lists, a);
    var p := UpdateConstraints(tr, lists, g.s, false, a, 0);
    UpdateStep(tr, lists, g.s, false, a, 0, threads);
    if p.1 {
      GrewTrans(g.s, p.0, Computed(tr, p.0, true, threads));
    }
  }

  /** After a choice, whatever of another thread writes its location has the action named up to it. */
  lemma ChoiceMarks(tr: ScTrace, threads: nat, g: Gen, a: nat, t: nat, j: nat)
    requires Complete(tr, threads) && GenOk(tr, threads, g) && IsFront(tr, g.lists, a) && Own(tr, g.s)
    requires ClocksDecide(tr, threads, g) && a in Candidates(tr, threads, g)
    requires t < |g.lists| && t != tr[a].tid && j < |g.lists[t]| && g.lists[t][j] < |tr|
    requires tr[g.lists[t][j]].write && tr[g.lists[t][j]].loc == tr[a].loc
    ensures var lists := Pop(g.lists, tr[a].tid);
            && ListsIn(tr, lists) && lists[t] == g.lists[t]
            && NamedUpTo(tr, UpdateConstraints(tr, lists, g.s, false, a, 0).0, a, g.lists[t], j)
  {
    hide UpdateConstraints, Split, Complete, Bounded, Own, Ahead, ClocksDecide, Candidates, NamedUpTo;
    var lists := Pop(g.lists, tr[a].tid);
    PopOk(tr, g.lists, a);
    forall u | 0 <= u < |lists| && u != tr[a].tid
      ensures Ahead(tr, g.s, a, lists[u])
    {
      CandidateAhead(tr, threads, g, a, u);
    }
    UpdateMarks(tr, lists, g.s, false, a, 0, t, j, threads);
  }

  /** And so it stays after the passes. */
  lemma TakenNames(tr: ScTrace, threads: nat, g: Gen, a: nat, t: nat, j: nat)
    requires Complete(tr, threads) && GenOk(tr, threads, g) && IsFront(tr, g.lists, a) && Own(tr, g.s)
    requires ClocksDecide(tr, threads, g) && a in Candidates(tr, threads, g)
    requires t < |g.lists| && t != tr[a].tid && j < |g.lists[t]| && g.lists[t][j] < |tr|
    requires tr[g.lists[t][j]].write && tr[g.lists[t][j]].loc == tr[a].loc
    ensures NamedUpTo(tr, Taken(tr, threads, g, a).s, a, g.lists[t], j)
  {
    hide Computed, UpdateConstraints, Split, Complete, Bounded, Grew, Own, ClocksDecide, Candidates, NamedUpTo;
    var lists := Pop(g.lists, tr[a].tid);
    PopOk(tr, g.lists, a);
    ChoiceMarks(tr, threads, g, a, t, j);
    var p := UpdateConstraints(tr, lists, g.s, false, a, 0);
    UpdateStep(tr, lists, g.s, false, a, 0, threads);
    if p.1 {
      NamedUpToGrows(tr, p.0, Computed(tr, p.0, true, threads), a, g.lists[t], j);
    }
  }

  lemma MarkedOn(tr: ScTrace, threads: nat, g: Gen, a: nat, x: nat)
    requires Complete(tr, threads) && GenOk(tr, threads, g) && IsFront(tr, g.lists, a) && Own(tr, g.s) && Started(tr)
    requires ClocksDecide(tr, threads, g) && a in Candidates(tr, threads, g) && IsOrder(tr, Taken(tr, threads, g, a).s)
    requires x < |tr| && x !in g.out && tr[x].write && tr[x].loc == tr[a].loc && tr[x].tid != tr[a].tid
    ensures Named(Taken(tr, threads, g, a).s, x, tr[a].tid, a)
  {
    hide Taken, Complete, Own, Started, IsOrder, ClocksDecide, Candidates, Grew;
    var s := Taken(tr, threads, g, a).s;
    var t := tr[x].tid;
    assert Somewhere(tr, g.lists, g.out, x);
    var l := g.lists[t];
    var j :| 0 <= j < |l| && l[j] == x;
    TakenNames(tr, threads, g, a, t, j);
    var i: nat :| i <= j && i < |l| && Named(s, l[i], tr[a].tid, a);
    assert ListOk(tr, l, t) && Increasing(l);
    NamedLater(tr, s, l[i], x, tr[a].tid, a);
  }

  lemma NamedLater(tr: ScTrace, s: Vectors, y: nat, x: nat, t: nat, b: nat)
    requires IsOrder(tr, s) && Started(tr) && y <= x < |tr| && tr[y].tid == tr[x].tid && Named(s, y, t, b)
    ensures Named(s, x, t, b)
  {
    OrderUp(tr, s, y, x);
    assert At(s.cvs[y].value, t) <= At(s.cvs[x].value, t);
  }

  lemma TakenForces(tr: ScTrace, threads: nat, g: Gen, a: nat)
    requires Complete(tr, threads) && GenOk(tr, threads, g) && IsFront(tr, g.lists, a) && Own(tr, g.s) && Started(tr)
    requires ClocksDecide(tr, threads, g) && a in Candidates(tr, threads, g) && IsOrder(tr, Taken(tr, threads, g, a).s)
    requires Forced(tr, g.out, g.s)
    ensures Forced(tr, g.out + [a], Taken(tr, threads, g, a).s)
  {
    hide Complete, Own, Started, IsOrder, ClocksDecide, Candidates, Named, Taken, GenOk;
    var g' := Taken(tr, threads, g, a);
    TakenGrows(tr, threads, g, a);
    var out' := g.out + [a];
    forall b: nat, x: nat | Chosen(tr, out', b, x)
      ensures Named(g'.s, x, tr[b].tid, b)
    {
      var i :| 0 <= i < |out'| && out'[i] == b && x !in out'[..i];
      if i < |g.out| {
        assert out'[..i] == g.out[..i] && g.out[i] == b;
        assert Chosen(tr, g.out, b, x);
        NamedGrows(g.s, g'.s, x, tr[b].tid, b);
      } else {
        assert out'[..i] == g.out;
        MarkedOn(tr, threads, g, a, x);
      }
    }
  }

  // ----- one step of a run -----

  lemma NamesRead(tr: ScTrace, s: Vectors, r: nat, w2: nat)
    requires r < |tr| == |s.cvs| && w2 < |tr| && AllSet(s) && Own(tr, s) && Orders(tr, s, r, w2)
    ensures Since(s.cvs[w2].value, tr[r].tid, r)
  {
    assert Since(s.cvs[r].value, tr[r].tid, r);
    assert At(s.cvs[r].value, tr[r].tid) <= At(s.cvs[w2].value, tr[r].tid);
  }

  /** What a candidate's clock names has been emitted. */
  lemma NamedEmitted(tr: ScTrace, threads: nat, g: Gen, a: nat, b: nat)
    requires Complete(tr, threads) && GenOk(tr, threads, g) && IsOrder(tr, g.s) && Respects(tr, g.out, g.s)
             && Backed(tr, g.out, g.s) && Own(tr, g.s) && Started(tr) && ClocksDecide(tr, threads, g)
    requires a in Candidates(tr, threads, g) && a < |tr| && b < |tr| && Named(g.s, a, tr[b].tid, b)
    ensures b == a || b in g.out
  {
    hide Complete, IsOrder, Respects, Backed, Own, Started, Candidates, Ordered, After, Somewhere, ListsOk, Bounded;
    var k :| 0 <= k < |Candidates(tr, threads, g)| && Candidates(tr, threads, g)[k] == a;
    if tr[b].tid != tr[a].tid {
      EmittedBefore(tr, threads, g, k, b);
    } else if b < a {
      FrontBefore(tr, threads, g, a, b);
    } else if a < b && b !in g.out {
      OwnLast(tr, threads, g, a, b);
    }
  }

  lemma FrontBefore(tr: ScTrace, threads: nat, g: Gen, a: nat, b: nat)
    requires GenOk(tr, threads, g) && a in Candidates(tr, threads, g) && b < a < |tr| && tr[b].tid == tr[a].tid
    ensures b in g.out
  {
    assert Somewhere(tr, g.lists, g.out, b);
    assert IsFront(tr, g.lists, a) && Increasing(g.lists[tr[a].tid]);
    BelowFront(g.lists[tr[a].tid], b);
  }

  lemma CandidateNew(tr: ScTrace, threads: nat, g: Gen, a: nat)
    requires GenOk(tr, threads, g) && IsFront(tr, g.lists, a)
    ensures a < |tr| && a !in g.out
  {
    FrontLeft(tr, g.lists, g.out, tr[a].tid);
  }

  /** A state with settled clocks that decide, an order so far that keeps to them, and a candidate. */
  ghost predicate Steady(tr: ScTrace, threads: nat, g: Gen, a: nat) {
    && Complete(tr, threads) && GenOk(tr, threads, g) && IsOrder(tr, g.s) && Respects(tr, g.out, g.s)
    && Backed(tr, g.out, g.s) && Own(tr, g.s) && Started(tr) && ClocksDecide(tr, threads, g)
    && IsFront(tr, g.lists, a) && a in Candidates(tr, threads, g)
  }

  lemma TakenFollows(tr: ScTrace, threads: nat, g: Gen, a: nat)
    requires Steady(tr, threads, g, a) && forall b: nat {:trigger Follows(tr, b, a)} :: Follows(tr, b, a) ==> b != a
    ensures FollowsFirst(tr, g.out + [a])
  {
    hide Complete, RulesAt, Backed, Started, Candidates, Precedes, Follows, Past, Forced, ThirdFirst, GenOk,
         ClocksDecide;
    CandidateNew(tr, threads, g, a);
    forall b: nat, z: nat | Follows(tr, b, z) && z in g.out + [a]
      ensures Precedes(g.out + [a], b, z)
    {
      PrecedesEnd(g.out, a, b, z);
      if z == a {
        FollowsIn(tr, b, a);
        assert Orders(tr, g.s, b, a);
        NamesRead(tr, g.s, b, a);
        NamedEmitted(tr, threads, g, a, b);
      }
    }
  }

  lemma FollowsIn(tr: ScTrace, b: nat, a: nat)
    requires Follows(tr, b, a)
    ensures b < |tr| && a < |tr|
  {
  }

  lemma TakenThird(tr: ScTrace, threads: nat, g: Gen, a: nat)
    requires Steady(tr, threads, g, a)
    ensures ThirdFirst(tr, g.out + [a])
  {
    hide Complete, Backed, Started, Candidates, Precedes, Follows, Past, FollowsFirst, GenOk, Orders, ClocksDecide,
         Chosen;
    CandidateNew(tr, threads, g, a);
    forall r: nat, w2: nat | Third(tr, r, w2) && Precedes(g.out + [a], tr[r].rf, w2)
      ensures Precedes(g.out + [a], r, w2)
    {
      PrecedesEnd(g.out, a, tr[r].rf, w2);
      PrecedesEnd(g.out, a, r, w2);
      if w2 == a && !Precedes(g.out, tr[r].rf, w2) {
        ThirdEmitted(tr, threads, g, a, r);
      }
    }
  }

  lemma ThirdEmitted(tr: ScTrace, threads: nat, g: Gen, a: nat, r: nat)
    requires Steady(tr, threads, g, a) && Third(tr, r, a) && tr[r].rf in g.out && a !in g.out
    ensures r in g.out
  {
    hide Complete, Backed, Started, Candidates, Follows, Past, FollowsFirst, ThirdFirst, GenOk, ClocksDecide, Chosen;
    CompleteRead(tr, threads, r);
    ChosenElse(tr, g.out, tr[r].rf, a);
    PrecedesOnly(g.out, a, tr[r].rf);
    assert RulesAt(tr, g.s, r, a);
    NamesRead(tr, g.s, r, a);
    NamedEmitted(tr, threads, g, a, r);
  }

  lemma PrecedesOnly(out: seq<nat>, x: nat, y: nat)
    ensures x !in out ==> !Precedes(out, x, y)
  {
  }

  lemma TakenPastNow(tr: ScTrace, threads: nat, g: Gen, a: nat)
    requires Steady(tr, threads, g, a)
    ensures Past(tr, g.out + [a], g.s)
  {
    hide Complete, Backed, Started, Candidates, Precedes, Forced, FollowsFirst, ThirdFirst, GenOk, ClocksDecide,
         IsOrder, Own;
    CandidateNew(tr, threads, g, a);
    forall z: nat, b: nat | z in g.out + [a] && b < |tr| && Named(g.s, z, tr[b].tid, b)
      ensures b == z || Precedes(g.out + [a], b, z)
    {
      PrecedesEnd(g.out, a, b, z);
      if z == a {
        NamedEmitted(tr, threads, g, a, b);
      }
    }
  }

  lemma RegularFollows(tr: ScTrace, a: nat)
    requires Regular(tr)
    ensures forall b: nat {:trigger Follows(tr, b, a)} :: Follows(tr, b, a) ==> b != a
  {
  }

  lemma PoppedLeft(tr: ScTrace, g: Gen, a: nat)
    requires ListsOk(tr, g.lists) && Split(tr, g.lists, g.out) && IsFront(tr, g.lists, a)
    ensures var lists := Pop(g.lists, tr[a].tid);
            forall t, j {:trigger lists[t][j]} ::
              0 <= t < |lists| && 0 <= j < |lists[t]| ==> lists[t][j] !in g.out + [a]
  {
    var lists, out := Pop(g.lists, tr[a].tid), g.out + [a];
    PopOk(tr, g.lists, a);
    PopSplit(tr, g.lists, g.out, a);
    forall t, j | 0 <= t < |lists| && 0 <= j < |lists[t]|
      ensures lists[t][j] !in out
    {
      assert ListOk(tr, lists[t], t) && After(tr, lists[t], out, t);
    }
  }

  lemma TakenPast(tr: ScTrace, threads: nat, g: Gen, a: nat)
    requires Steady(tr, threads, g, a) && ReadsOthers(tr) && IsOrder(tr, Taken(tr, threads, g, a).s)
    requires var out := g.out + [a];
             FollowsFirst(tr, out) && ThirdFirst(tr, out) && Past(tr, out, g.s)
               && Forced(tr, out, Taken(tr, threads, g, a).s)
    ensures Past(tr, g.out + [a], Taken(tr, threads, g, a).s)
  {
    hide Computed, UpdateConstraints, Complete, Bounded, IsOrder, Respects, Backed, Own, Started, ClocksDecide,
         Candidates,
         Past, FollowsFirst, ThirdFirst, Forced, After, Somewhere, ReadsOthers;
    var lists, out := Pop(g.lists, tr[a].tid), g.out + [a];
    PopOk(tr, g.lists, a);
    PopSplit(tr, g.lists, g.out, a);
    PoppedLeft(tr, g, a);
    var p := UpdateConstraints(tr, lists, g.s, false, a, 0);
    UpdatePast(tr, out, lists, g.s, false, a, 0);
    UpdateStep(tr, lists, g.s, false, a, 0, threads);
    var f := Taken(tr, threads, g, a).s;
    SettledSound(tr, out, f);
    if p.1 {
      ComputedPast(tr, threads, out, p.0, true, f);
    }
  }

  lemma TakenRespects(tr: ScTrace, threads: nat, g: Gen, a: nat)
    requires Steady(tr, threads, g, a) && Regular(tr) && IsOrder(tr, Taken(tr, threads, g, a).s)
    ensures Respects(tr, g.out + [a], Taken(tr, threads, g, a).s)
  {
    hide Taken, Complete, IsOrder, Backed, Own, ClocksDecide, Candidates, GenOk, Past, FollowsFirst, ThirdFirst, Forced,
         Follows;
    RegularFollows(tr, a);
    TakenFollows(tr, threads, g, a);
    TakenThird(tr, threads, g, a);
    TakenPastNow(tr, threads, g, a);
    TakenForces(tr, threads, g, a);
    TakenPast(tr, threads, g, a);
  }

  // ----- whole runs -----

  /** In the first states of the run, up to the k-th, the clocks respect every rule. */
  ghost predicate SettledTo(tr: ScTrace, threads: nat, plan: seq<nat>, k: nat)
    requires Complete(tr, threads)
  {
    forall n: nat {:trigger RunTo(tr, threads, plan, n)} :: n <= k ==> IsOrder(tr, RunTo(tr, threads, plan, n).s)
  }

  /** What has not been emitted is left. */
  lemma SomethingLeft(tr: ScTrace, threads: nat, g: Gen)
    requires GenOk(tr, threads, g) && |g.out| < |tr|
    ensures Left(g.lists)
  {
    if !Left(g.lists) {
      forall a: nat | a < |tr|
        ensures a in g.out
      {
        assert Somewhere(tr, g.lists, g.out, a);
      }
      var r := OrderedSet(tr, g.out, |g.out|);
      assert g.out[..|g.out|] == g.out;
      AtLeast(r, |tr|);
    }
  }

  lemma StartRespects(tr: ScTrace, s: Vectors)
    ensures Respects(tr, [], s)
  {
  }

  /** In a run whose clocks stay settled, the order so far keeps to every rule, and the clocks decide. */
  lemma {:induction false} RunRespected(tr: ScTrace, threads: nat, plan: seq<nat>, n: nat)
    requires Complete(tr, threads) && Regular(tr) && SettledTo(tr, threads, plan, n) && n <= |tr|
    ensures var g := RunTo(tr, threads, plan, n);
            Respects(tr, g.out, g.s) && |g.out| == n && (n < |tr| ==> ClocksDecide(tr, threads, g))
    decreases n
  {
    hide Complete, GenOk, Taken, Candidates, Picked, ClocksDecide, IsOrder, Own, Closed, Respects, Advance, Start,
         Choice,
         AtChoice, Backed, Left;
    var g' := RunTo(tr, threads, plan, n);
    if n == 0 {
      StartRespects(tr, g'.s);
    } else {
      RunRespected(tr, threads, plan, n - 1);
      RunStep(tr, threads, plan, n - 1);
    }
    if n < |tr| {
      RunGood(tr, threads, plan, n);
      RunBacked(tr, threads, plan, n);
      SomethingLeft(tr, threads, g');
      SettledUnblocks(tr, threads, g');
    }
  }

  lemma RunStep(tr: ScTrace, threads: nat, plan: seq<nat>, n: nat)
    requires Complete(tr, threads) && Regular(tr) && SettledTo(tr, threads, plan, n + 1) && n < |tr|
    requires var g := RunTo(tr, threads, plan, n); Respects(tr, g.out, g.s) && ClocksDecide(tr, threads, g)
    ensures var g, g' := RunTo(tr, threads, plan, n), RunTo(tr, threads, plan, n + 1);
            Respects(tr, g'.out, g'.s) && |g'.out| == |g.out| + 1
  {
    hide Complete, GenOk, Taken, Candidates, Picked, IsOrder, Own, Closed, Respects, Advance, Start, Choice, AtChoice,
         Backed, RunTo, ClocksDecide;
    var g := RunTo(tr, threads, plan, n);
    RunGood(tr, threads, plan, n);
    RunBacked(tr, threads, plan, n);
    DecidedNext(tr, threads, g);
    NextRun(tr, threads, plan, n);
    PickedIn(tr, threads, g, Choice(plan, g.used));
    var a := Picked(tr, threads, g, Choice(plan, g.used));
    assert IsOrder(tr, RunTo(tr, threads, plan, n + 1).s);
    TakenRespects(tr, threads, g, a);
  }

  lemma DecidedNext(tr: ScTrace, threads: nat, g: Gen)
    requires GenOk(tr, threads, g) && ClocksDecide(tr, threads, g)
    ensures Candidates(tr, threads, g) != []
  {
  }

  /** So it never falls back on happens-before. */
  lemma NeverFallsBack(tr: ScTrace, threads: nat, plan: seq<nat>)
    requires Complete(tr, threads) && Regular(tr) && SettledTo(tr, threads, plan, |tr|)
    ensures NoFallback(tr, threads, plan)
  {
    hide Complete, Regular, RunTo, ClocksDecide, Respects, IsOrder;
    forall n: nat | n < |tr|
      ensures ClocksDecide(tr, threads, RunTo(tr, threads, plan, n))
    {
      RunRespected(tr, threads, plan, n);
    }
  }
}
