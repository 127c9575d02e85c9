/** Fair scheduling by yields: who must wait for whom, along every run. */
module YieldTheory {
  import opened Relations

  /**
   * What node data say about a pair (u, v): since u last yielded, v has been enabled throughout (e),
   * was disabled by u (d), has been scheduled (s); and p: u must wait for v.
   */
  datatype Flags = Flags(e: bool, d: bool, s: bool, p: bool)

  const NEW_PAIR := Flags(false, true, true, false)

  /** One entry per ordered pair of threads. */
  type Yields = seq<seq<Flags>>

  predicate Square(y: Yields) {
    forall u {:trigger y[u]} :: 0 <= u < |y| ==> |y[u]| == |y|
  }

  /** Threads that a node does not know yet count as just started. */
  function Get(y: Yields, u: nat, v: nat): Flags
    requires Square(y)
  {
    if u < |y| && v < |y| then y[u][v] else NEW_PAIR
  }

  predicate On(enabled: seq<bool>, t: nat) {
    t < |enabled| && enabled[t]
  }

  /** A step of thread curr: how many threads there are, whether it yields, who was and who is enabled. */
  datatype Turn = Turn(threads: nat, curr: nat, yielding: bool, before: seq<bool>, after: seq<bool>)

  /** What happens to a pair in every step. */
  function Stepped(f: Flags, turn: Turn, u: nat, v: nat): Flags {
    var g :=
      if On(turn.after, v) then f
      else Flags(false, f.d || (u == turn.curr && On(turn.before, v)), f.s, f.p);
    if v == turn.curr then g.(p := false, s := true) else g
  }

  /** What happens to the pairs of a yielding thread. */
  function Yielded(f: Flags, turn: Turn, v: nat): Flags {
    Flags(On(turn.after, v), false, false, f.p || ((f.e || f.d) && !f.s))
  }

  function NextPair(y: Yields, turn: Turn, u: nat, v: nat): Flags
    requires Square(y)
  {
    var f := Stepped(Get(y, u, v), turn, u, v);
    if turn.yielding && u == turn.curr then Yielded(f, turn, v) else f
  }

  /** y' holds the data of the node after a turn. */
  ghost predicate IsNext(y: Yields, turn: Turn, y': Yields)
    requires Square(y)
  {
    && |y'| == turn.threads && Square(y')
    && forall u: nat, v: nat :: u < turn.threads && v < turn.threads ==> y'[u][v] == NextPair(y, turn, u, v)
  }

  /** Who must wait for whom. */
  ghost function Waits(y: Yields): Rel
    requires Square(y)
  {
    set u: nat, v: nat | u < |y| && v < |y| && y[u][v].p :: (u, v)
  }

  /** Nobody waits for the thread that just ran, and only its own waits are new. */
  lemma NextWaits(y: Yields, turn: Turn, y': Yields, u: nat, v: nat)
    requires Square(y) && IsNext(y, turn, y') && (u, v) in Waits(y')
    ensures v != turn.curr && (u == turn.curr || (u, v) in Waits(y))
  {
    var f := Stepped(Get(y, u, v), turn, u, v);
    assert y'[u][v] == NextPair(y, turn, u, v);
  }

  lemma {:induction false} PathAvoids(y: Yields, turn: Turn, y': Yields, p: seq<nat>, a: nat, b: nat)
    requires Square(y) && IsNext(y, turn, y') && IsPath(Waits(y'), p, a, b) && a != turn.curr
    ensures b != turn.curr && Reach(Waits(y), a, b)
    decreases |p|
  {
    if |p| == 1 {
      ReachRefl(Waits(y), a);
    } else {
      assert (p[0], p[1]) in Waits(y');
      NextWaits(y, turn, y', p[0], p[1]);
      PathAvoids(y, turn, y', p[1..], p[1], b);
      ReachPair(Waits(y), a, p[1]);
      ReachTrans(Waits(y), a, p[1], b);
    }
  }

  lemma NextAcyclic(y: Yields, turn: Turn, y': Yields)
    requires Square(y) && IsNext(y, turn, y') && Acyclic(Waits(y))
    ensures Acyclic(Waits(y'))
  {
    forall a, b | (a, b) in Waits(y')
      ensures !Reach(Waits(y'), b, a)
    {
      NextWaits(y, turn, y', a, b);
      if Reach(Waits(y'), b, a) {
        var p :| IsPath(Waits(y'), p, b, a);
        PathAvoids(y, turn, y', p, b, a);
      }
    }
  }

  // ----- runs -----

  /** The first node knows nothing; every later one follows from its parent. */
  ghost predicate IsRun(ys: seq<Yields>, turns: seq<Turn>) {
    && |ys| == |turns| && (forall i {:trigger ys[i]} :: 0 <= i < |ys| ==> Square(ys[i]))
    && (|ys| > 0 ==>
          |ys[0]| == turns[0].threads && forall u: nat,
            v: nat :: u < |ys[0]| && v < |ys[0]| ==> ys[0][u][v] == NEW_PAIR)
    && (forall i {:trigger ys[i]} :: 0 < i < |ys| ==> IsNext(ys[i - 1], turns[i], ys[i]))
  }

  /** Waiting never goes round in a circle. */
  lemma {:induction false} RunAcyclic(ys: seq<Yields>, turns: seq<Turn>, i: nat)
    requires IsRun(ys, turns) && i < |ys|
    ensures Acyclic(Waits(ys[i]))
  {
    if i == 0 {
      assert Waits(ys[0]) == {};
    } else {
      RunAcyclic(ys, turns, i - 1);
      NextAcyclic(ys[i - 1], turns[i], ys[i]);
    }
  }

  lemma RunPair(ys: seq<Yields>, turns: seq<Turn>, k: nat, u: nat, v: nat)
    requires IsRun(ys, turns) && 0 < k < |ys| && u < turns[k].threads && v < turns[k].threads
    ensures |turns| == |ys| && Square(ys[k - 1]) && Square(ys[k]) && |ys[k]| == turns[k].threads
    ensures ys[k][u][v] == NextPair(ys[k - 1], turns[k], u, v)
  {
    assert IsNext(ys[k - 1], turns[k], ys[k]);
  }

  // ----- who waits for whom, told from the turns alone -----

  predicate YieldsBy(turn: Turn, t: nat) {
    turn.yielding && turn.curr == t
  }

  /** Thread t itself takes away that v can run. */
  predicate Disables(turn: Turn, t: nat, v: nat) {
    turn.curr == t && On(turn.before, v) && !On(turn.after, v)
  }

  /** Both threads exist from i to k. */
  ghost predicate Together(turns: seq<Turn>, t: nat, v: nat, i: nat, k: nat) {
    forall m {:trigger turns[m]} :: i <= m <= k && m < |turns| ==> t < turns[m].threads && v < turns[m].threads
  }

  ghost predicate NotRun(turns: seq<Turn>, v: nat, i: nat, k: nat) {
    forall m {:trigger turns[m]} :: i < m <= k && m < |turns| ==> turns[m].curr != v
  }

  ghost predicate StaysOn(turns: seq<Turn>, v: nat, i: nat, k: nat) {
    forall m {:trigger turns[m]} :: i <= m <= k && m < |turns| ==> On(turns[m].after, v)
  }

  ghost predicate NoYield(turns: seq<Turn>, t: nat, i: nat, k: nat) {
    forall m {:trigger turns[m]} :: i <= m <= k && m < |turns| ==> !YieldsBy(turns[m], t)
  }

  /** Since the yield i of t, up to its yield j, v could run all the time, or t took that away. */
  ghost predicate Starved(turns: seq<Turn>, t: nat, v: nat, i: nat, j: nat) {
    StaysOn(turns, v, i, j) || exists m {:trigger turns[m]} :: i < m <= j && m < |turns| && Disables(turns[m], t, v)
  }

  /** The turns after which t owes v a turn: two yields of t between which v starved, and v has not run since. */
  ghost predicate Owes(turns: seq<Turn>, t: nat, v: nat, k: nat) {
    exists i: nat, j: nat {:trigger turns[i], turns[j]} ::
      && 0 < i < j <= k < |turns| && YieldsBy(turns[i], t) && YieldsBy(turns[j], t)
      && Together(turns, t, v, i, k) && NotRun(turns, v, i, k) && Starved(turns, t, v, i, j)
  }

  /** v has not run since t yielded. */
  ghost predicate Idle(turns: seq<Turn>, t: nat, v: nat, k: nat) {
    exists i: nat {:trigger turns[i]} ::
      0 < i <= k < |turns| && YieldsBy(turns[i], t) && Together(turns, t, v, i, k) && NotRun(turns, v, i, k)
  }

  /** v could run all the time since t yielded. */
  ghost predicate AlwaysOn(turns: seq<Turn>, t: nat, v: nat, k: nat) {
    exists i: nat {:trigger turns[i]} ::
      0 < i <= k < |turns| && YieldsBy(turns[i], t) && Together(turns, t, v, i, k) && StaysOn(turns, v, i, k)
  }

  /** t took away that v can run, and has not yielded since. */
  ghost predicate TakenAway(turns: seq<Turn>, t: nat, v: nat, k: nat) {
    exists i: nat {:trigger turns[i]} ::
      0 < i <= k < |turns| && Disables(turns[i], t, v) && Together(turns, t, v, i, k) && NoYield(turns, t, i, k)
  }

  lemma IdleStep(turns: seq<Turn>, t: nat, v: nat, k: nat)
    requires 0 < k < |turns| && t < turns[k].threads && v < turns[k].threads
    ensures Idle(turns, t, v, k) <==> YieldsBy(turns[k], t) || (Idle(turns, t, v, k - 1) && turns[k].curr != v)
  {
    hide YieldsBy;
    if Idle(turns, t, v, k - 1) && turns[k].curr != v {
      var i: nat :| 0 < i <= k - 1 && YieldsBy(turns[i], t) && Together(turns, t, v, i, k - 1)
        && NotRun(turns, v, i, k - 1);
      assert Together(turns, t, v, i, k) && NotRun(turns, v, i, k);
    }
    if YieldsBy(turns[k], t) {
      assert Together(turns, t, v, k, k) && NotRun(turns, v, k, k);
    }
    if Idle(turns, t, v, k) && !YieldsBy(turns[k], t) {
      var i: nat :| 0 < i <= k && YieldsBy(turns[i], t) && Together(turns, t, v, i, k) && NotRun(turns, v, i, k);
      assert Together(turns, t, v, i, k - 1) && NotRun(turns, v, i, k - 1) && turns[k].curr != v;
    }
  }

  lemma OnStep(turns: seq<Turn>, t: nat, v: nat, k: nat)
    requires 0 < k < |turns| && t < turns[k].threads && v < turns[k].threads
    ensures AlwaysOn(turns, t, v, k) <==>
              On(turns[k].after, v) && (YieldsBy(turns[k], t) || AlwaysOn(turns, t, v, k - 1))
  {
    hide YieldsBy, On;
    if AlwaysOn(turns, t, v, k - 1) && On(turns[k].after, v) {
      var i: nat :| 0 < i <= k - 1 && YieldsBy(turns[i], t) && Together(turns, t, v, i, k - 1)
        && StaysOn(turns, v, i, k - 1);
      assert Together(turns, t, v, i, k) && StaysOn(turns, v, i, k);
    }
    if YieldsBy(turns[k], t) && On(turns[k].after, v) {
      assert Together(turns, t, v, k, k) && StaysOn(turns, v, k, k);
    }
    if AlwaysOn(turns, t, v, k) && !YieldsBy(turns[k], t) {
      var i: nat :| 0 < i <= k && YieldsBy(turns[i], t) && Together(turns, t, v, i, k) && StaysOn(turns, v, i, k);
      assert Together(turns, t, v, i, k - 1) && StaysOn(turns, v, i, k - 1);
    }
  }

  lemma AwayStep(turns: seq<Turn>, t: nat, v: nat, k: nat)
    requires 0 < k < |turns| && t < turns[k].threads && v < turns[k].threads
    ensures TakenAway(turns, t, v, k) <==>
              !YieldsBy(turns[k], t) && (Disables(turns[k], t, v) || TakenAway(turns, t, v, k - 1))
  {
    hide YieldsBy, Disables;
    if TakenAway(turns, t, v, k - 1) && !YieldsBy(turns[k], t) {
      var i: nat :| 0 < i <= k - 1 && Disables(turns[i], t, v) && Together(turns, t, v, i, k - 1)
        && NoYield(turns, t, i, k - 1);
      assert Together(turns, t, v, i, k) && NoYield(turns, t, i, k);
    }
    if Disables(turns[k], t, v) && !YieldsBy(turns[k], t) {
      assert Together(turns, t, v, k, k) && NoYield(turns, t, k, k);
    }
    if TakenAway(turns, t, v, k) {
      var i: nat :| 0 < i <= k && Disables(turns[i], t, v) && Together(turns, t, v, i, k) && NoYield(turns, t, i, k);
      assert !YieldsBy(turns[k], t);
      if i < k {
        assert Together(turns, t, v, i, k - 1) && NoYield(turns, t, i, k - 1);
      }
    }
  }

  /** A debt stays until the thread runs; a yield makes one if the thread starved since the yield before. */
  lemma OwesStep(turns: seq<Turn>, t: nat, v: nat, k: nat)
    requires 0 < k < |turns| && t < turns[k].threads && v < turns[k].threads
    ensures Owes(turns, t, v, k) <==>
              && turns[k].curr != v
              && (|| Owes(turns, t, v, k - 1)
                  || (YieldsBy(turns[k], t) && Idle(turns, t, v, k - 1)
                      && (|| (AlwaysOn(turns, t, v, k - 1) && On(turns[k].after, v))
                          || TakenAway(turns, t, v, k - 1) || Disables(turns[k], t, v))))
  {
    hide YieldsBy, On, Disables, Owes, Idle, AlwaysOn, TakenAway;
    if Owes(turns, t, v, k) {
      OwesBack(turns, t, v, k);
    }
    if turns[k].curr != v && Owes(turns, t, v, k - 1) {
      OwesStill(turns, t, v, k);
    }
    if turns[k].curr != v && YieldsBy(turns[k], t) && Idle(turns, t, v, k - 1)
      && ((AlwaysOn(turns, t, v, k - 1) && On(turns[k].after, v)) || TakenAway(turns, t, v, k - 1)
          || Disables(turns[k], t, v)) {
      OwesNew(turns, t, v, k);
    }
  }

  lemma OwesStill(turns: seq<Turn>, t: nat, v: nat, k: nat)
    requires 0 < k < |turns| && t < turns[k].threads && v < turns[k].threads && turns[k].curr != v
             && Owes(turns, t, v, k - 1)
    ensures Owes(turns, t, v, k)
  {
    hide YieldsBy, Starved;
    var i: nat, j: nat :| 0 < i < j <= k - 1 && YieldsBy(turns[i], t) && YieldsBy(turns[j], t)
      && Together(turns, t, v, i, k - 1) && NotRun(turns, v, i, k - 1) && Starved(turns, t, v, i, j);
    assert Together(turns, t, v, i, k) && NotRun(turns, v, i, k);
  }

  lemma OwesNew(turns: seq<Turn>, t: nat, v: nat, k: nat)
    requires 0 < k < |turns| && t < turns[k].threads && v < turns[k].threads && turns[k].curr != v
             && YieldsBy(turns[k], t) && Idle(turns, t, v, k - 1)
    requires || (AlwaysOn(turns, t, v, k - 1) && On(turns[k].after, v))
             || TakenAway(turns, t, v, k - 1) || Disables(turns[k], t, v)
    ensures Owes(turns, t, v, k)
  {
    hide YieldsBy, On, Disables;
    var i: nat :| 0 < i <= k - 1 && YieldsBy(turns[i], t) && Together(turns, t, v, i, k - 1)
      && NotRun(turns, v, i, k - 1);
    if AlwaysOn(turns, t, v, k - 1) && On(turns[k].after, v) {
      var e: nat :| 0 < e <= k - 1 && YieldsBy(turns[e], t) && Together(turns, t, v, e, k - 1)
        && StaysOn(turns, v, e, k - 1);
      var x := if i < e then e else i;
      assert Together(turns, t, v, x, k) && NotRun(turns, v, x, k) && StaysOn(turns, v, x, k);
      assert Starved(turns, t, v, x, k);
    } else {
      if !Disables(turns[k], t, v) {
        var m: nat :| 0 < m <= k - 1 && Disables(turns[m], t, v) && Together(turns, t, v, m, k - 1)
          && NoYield(turns, t, m, k - 1);
        assert i < m;
      }
      assert Starved(turns, t, v, i, k);
      assert Together(turns, t, v, i, k) && NotRun(turns, v, i, k);
    }
  }

  lemma OwesBack(turns: seq<Turn>, t: nat, v: nat, k: nat)
    requires 0 < k < |turns| && Owes(turns, t, v, k)
    ensures turns[k].curr != v
    ensures || Owes(turns, t, v, k - 1)
            || (YieldsBy(turns[k], t) && Idle(turns, t, v, k - 1)
                && (|| (AlwaysOn(turns, t, v, k - 1) && On(turns[k].after, v))
                    || TakenAway(turns, t, v, k - 1) || Disables(turns[k], t, v)))
  {
    hide YieldsBy, On, Disables, Idle, AlwaysOn, TakenAway, StaysOn;
    var i: nat, j: nat :| 0 < i < j <= k && YieldsBy(turns[i], t) && YieldsBy(turns[j], t)
      && Together(turns, t, v, i, k) && NotRun(turns, v, i, k) && Starved(turns, t, v, i, j);
    assert turns[k].curr != v;
    Shorter(turns, t, v, i, k);
    hide Together, NotRun;
    if j == k {
      LastYield(turns, t, v, i, k);
    } else {
      OwesAt(turns, t, v, i, j, k - 1);
    }
  }

  lemma OwesAt(turns: seq<Turn>, t: nat, v: nat, i: nat, j: nat, k: nat)
    requires 0 < i < j <= k < |turns| && YieldsBy(turns[i], t) && YieldsBy(turns[j], t)
             && Together(turns, t, v, i, k) && NotRun(turns, v, i, k) && Starved(turns, t, v, i, j)
    ensures Owes(turns, t, v, k)
  {
  }

  lemma LastYield(turns: seq<Turn>, t: nat, v: nat, i: nat, k: nat)
    requires 0 < i < k < |turns| && YieldsBy(turns[i], t) && Together(turns, t, v, i, k - 1)
             && NotRun(turns, v, i, k - 1)
             && Starved(turns, t, v, i, k)
    ensures Idle(turns, t, v, k - 1)
    ensures || Owes(turns, t, v, k - 1) || (AlwaysOn(turns, t, v, k - 1) && On(turns[k].after, v))
            || TakenAway(turns, t, v, k - 1) || Disables(turns[k], t, v)
  {
    hide YieldsBy, On, Disables, Together, NotRun, Owes, TakenAway;
    if StaysOn(turns, v, i, k) {
      assert StaysOn(turns, v, i, k - 1) && On(turns[k].after, v);
    } else {
      var m :| i < m <= k && Disables(turns[m], t, v);
      if m < k {
        BeforeYield(turns, t, v, i, m, k);
      }
    }
  }

  lemma Shorter(turns: seq<Turn>, t: nat, v: nat, i: nat, k: nat)
    requires 0 < k < |turns| && Together(turns, t, v, i, k) && NotRun(turns, v, i, k)
    ensures Together(turns, t, v, i, k - 1) && NotRun(turns, v, i, k - 1)
  {
  }

  /** Up to k - 1, t has yielded again after it took v's turn away, or it has not. */
  lemma BeforeYield(turns: seq<Turn>, t: nat, v: nat, i: nat, m: nat, k: nat)
    requires 0 < i < m < k < |turns| && YieldsBy(turns[i], t) && Disables(turns[m], t, v)
             && Together(turns, t, v, i, k - 1) && NotRun(turns, v, i, k - 1)
    ensures Owes(turns, t, v, k - 1) || TakenAway(turns, t, v, k - 1)
  {
    hide YieldsBy, Disables;
    if NoYield(turns, t, m, k - 1) {
      assert Together(turns, t, v, m, k - 1);
    } else {
      var y :| m <= y <= k - 1 && YieldsBy(turns[y], t);
      assert Starved(turns, t, v, i, y);
    }
  }

  /** What the flags of a pair say about the turns. */
  lemma {:induction false} FlagsExactly(ys: seq<Yields>, turns: seq<Turn>, k: nat, t: nat, v: nat)
    requires IsRun(ys, turns) && k < |ys| && t < turns[k].threads && v < turns[k].threads
    ensures Square(ys[k]) && |ys[k]| == turns[k].threads
    ensures var f := ys[k][t][v];
            && (!f.s <==> Idle(turns, t, v, k)) && (f.e <==> AlwaysOn(turns, t, v, k))
            && (!f.s ==> (f.d <==> TakenAway(turns, t, v, k))) && (f.p <==> Owes(turns, t, v, k))
    decreases k
  {
    hide Idle, AlwaysOn, TakenAway, Owes;
    if k == 0 {
      NothingYet(turns, t, v);
    } else {
      RunPair(ys, turns, k, t, v);
      IdleStep(turns, t, v, k);
      OnStep(turns, t, v, k);
      AwayStep(turns, t, v, k);
      OwesStep(turns, t, v, k);
      RunSize(ys, turns, k - 1);
      if t < turns[k - 1].threads && v < turns[k - 1].threads {
        FlagsExactly(ys, turns, k - 1, t, v);
      } else {
        Unknown(turns, t, v, k - 1);
      }
    }
  }

  lemma RunSize(ys: seq<Yields>, turns: seq<Turn>, k: nat)
    requires IsRun(ys, turns) && k < |ys|
    ensures |turns| == |ys| && Square(ys[k]) && |ys[k]| == turns[k].threads
  {
    if k > 0 {
      assert IsNext(ys[k - 1], turns[k], ys[k]);
    }
  }

  lemma NothingYet(turns: seq<Turn>, t: nat, v: nat)
    ensures !Idle(turns, t, v, 0) && !AlwaysOn(turns, t, v, 0) && !Owes(turns, t, v, 0)
  {
  }

  lemma Unknown(turns: seq<Turn>, t: nat, v: nat, k: nat)
    requires k < |turns| && !(t < turns[k].threads && v < turns[k].threads)
    ensures !Idle(turns, t, v, k) && !AlwaysOn(turns, t, v, k) && !Owes(turns, t, v, k)
  {
    hide YieldsBy;
    forall i: nat | i <= k
      ensures !Together(turns, t, v, i, k)
    {
      assert !(t < turns[k].threads && v < turns[k].threads);
    }
  }

  /**
   * Along every run, t must wait for v exactly if v has not run since t yielded the first of two times between which v
   * could run all the time, or lost that by a step of t.
   */
  lemma WaitsExactly(ys: seq<Yields>, turns: seq<Turn>, k: nat, t: nat, v: nat)
    requires IsRun(ys, turns) && k < |ys|
    ensures Square(ys[k]) && ((t, v) in Waits(ys[k]) <==> Owes(turns, t, v, k))
  {
    hide Owes, IsRun, Square;
    RunSize(ys, turns, k);
    if t < turns[k].threads && v < turns[k].threads {
      FlagsExactly(ys, turns, k, t, v);
    } else {
      Unknown(turns, t, v, k);
    }
  }

  /** Both threads exist, and v stays enabled and does not run, in the turns from i to k. */
  ghost predicate Starves(turns: seq<Turn>, t: nat, v: nat, i: nat, k: nat) {
    Together(turns, t, v, i, k) && NotRun(turns, v, i, k) && StaysOn(turns, v, i, k)
  }

  /**
   * In particular, if v stayed enabled without running between two yields of t, then from the second on, for as long
   * as v does not run, t must wait for v.
   */
  lemma MustWait(ys: seq<Yields>, turns: seq<Turn>, i: nat, j: nat, k: nat, t: nat, v: nat)
    requires IsRun(ys, turns) && 0 < i < j <= k < |ys| && Starves(turns, t, v, i, j)
    requires YieldsBy(turns[i], t) && YieldsBy(turns[j], t) && Together(turns, t, v, j, k) && NotRun(turns, v, j, k)
    ensures (t, v) in Waits(ys[k])
  {
    hide IsRun, YieldsBy, On;
    RunSize(ys, turns, k);
    WaitsExactly(ys, turns, k, t, v);
    assert Starved(turns, t, v, i, j);
    assert Together(turns, t, v, i, k) && NotRun(turns, v, i, k);
  }
}
