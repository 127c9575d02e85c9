/** Undoing a transaction: popping logged edges gives back the graph of the last commit. */
module GraphRollback {
  import opened GraphTheory

  /** The list without the first occurrence of n. */
  function Without<T(==)>(v: seq<T>, n: T): seq<T> {
    if v == [] then []
    else if v[0] == n then v[1..]
    else [v[0]] + Without(v[1..], n)
  }

  lemma {:induction false} WithoutAt<T>(v: seq<T>, n: T, i: nat)
    requires i < |v| && v[i] == n && n !in v[..i]
    ensures Without(v, n) == v[..i] + v[i + 1..]
    decreases i
  {
    if i > 0 {
      assert v[0] == v[..i][0];
      assert v[1..][..i - 1] == v[..i][1..];
      WithoutAt(v[1..], n, i - 1);
      assert v[1..][i..] == v[i + 1..];
      assert v[..i] == [v[0]] + v[1..][..i - 1];
    }
  }

  lemma {:induction false} WithoutNone<T>(v: seq<T>, n: T)
    requires n !in v
    ensures Without(v, n) == v
  {
    if v != [] {
      WithoutNone(v[1..], n);
    }
  }

  lemma {:induction false} WithoutMember<T>(v: seq<T>, n: T, x: T)
    requires x != n
    ensures x in Without(v, n) <==> x in v
  {
    if v != [] && v[0] != n {
      WithoutMember(v[1..], n, x);
      assert v == [v[0]] + v[1..];
    }
  }

  /** Removing one occurrence from a list without repetition removes the element. */
  lemma {:induction false} WithoutDistinct(m: nat, v: seq<nat>, n: nat)
    requires NodeList(m, v)
    ensures NodeList(m, Without(v, n)) && n !in Without(v, n)
  {
    if v != [] {
      var rest := v[1..];
      WithoutDistinct(m, rest, n);
      if v[0] != n {
        WithoutMember(rest, n, v[0]);
        var w := Without(rest, n);
        assert v[0] !in w;
        assert forall i :: 0 < i < |[v[0]] + w| ==> ([v[0]] + w)[i] == w[i - 1];
      }
    }
  }

  /** A removal behind a prefix that does not hold the element leaves the prefix. */
  lemma {:induction false} WithoutPrefix<T>(p: seq<T>, v: seq<T>, n: T)
    requires p <= v && n !in p
    ensures p <= Without(v, n)
    decreases |p|
  {
    if p != [] {
      assert p[0] == v[0];
      WithoutPrefix(p[1..], v[1..], n);
    }
  }

  ghost function At(g: Graph, x: nat): Node {
    if x < |g| then g[x] else EMPTY_NODE
  }

  ghost function Count(log: seq<nat>, x: nat): nat {
    multiset(log)[x]
  }

  /** g grew from base by one edge at the end of a list per log entry, and by readers of the logged writes. */
  ghost predicate Extends(base: Graph, g: Graph, log: seq<nat>, rmwLog: seq<nat>) {
    && |base| <= |g|
    && (forall x {:trigger g[x].edges} :: 0 <= x < |g| ==>
          At(base, x).edges <= g[x].edges && |g[x].edges| == |At(base, x).edges| + Count(log, x))
    && (forall x {:trigger g[x].back} :: 0 <= x < |g| ==> At(base, x).back <= g[x].back)
    && (forall x {:trigger g[x].rmw} :: 0 <= x < |g| ==>
          if x in rmwLog then At(base, x).rmw.None? else g[x].rmw == At(base, x).rmw)
  }

  lemma ExtendsRefl(g: Graph)
    ensures Extends(g, g, [], [])
  {
  }

  lemma PushExtends(base: Graph, g: Graph, log: seq<nat>, rmwLog: seq<nat>, a: nat, b: nat)
    requires Extends(base, g, log, rmwLog) && a < |g| && b < |g| && b !in g[a].edges
    ensures Extends(base, PushEdge(g, a, b), log + [a], rmwLog)
  {
    PushEdgeShape(g, a, b);
    var h := PushEdge(g, a, b);
    forall x | 0 <= x < |h|
      ensures At(base, x).edges <= h[x].edges && |h[x].edges| == |At(base, x).edges| + Count(log + [a], x)
      ensures At(base, x).back <= h[x].back
    {
      assert At(base, x).edges <= g[x].edges && At(base, x).back <= g[x].back;
    }
  }

  lemma SetRmwExtends(base: Graph, g: Graph, log: seq<nat>, rmwLog: seq<nat>, a: nat, r: nat)
    requires Extends(base, g, log, rmwLog) && a < |g| && g[a].rmw.None?
    ensures Extends(base, SetRmw(g, a, r), log, rmwLog + [a])
  {
    var h := SetRmw(g, a, r);
    forall x | 0 <= x < |h|
      ensures h[x].edges == g[x].edges && h[x].back == g[x].back
      ensures if x in rmwLog + [a] then At(base, x).rmw.None? else h[x].rmw == At(base, x).rmw
    {
    }
  }

  lemma AddNodeExtends(base: Graph, g: Graph, log: seq<nat>, rmwLog: seq<nat>)
    requires Extends(base, g, log, rmwLog) && (forall i :: 0 <= i < |log| ==> log[i] < |g|)
    requires forall i :: 0 <= i < |rmwLog| ==> rmwLog[i] < |g|
    ensures Extends(base, g + [EMPTY_NODE], log, rmwLog)
  {
    var h := g + [EMPTY_NODE];
    assert |g| !in log && |g| !in rmwLog;
    forall x | 0 <= x < |h|
      ensures At(base, x).edges <= h[x].edges && |h[x].edges| == |At(base, x).edges| + Count(log, x)
      ensures At(base, x).back <= h[x].back
    {
      if x < |g| {
        assert At(base, x).edges <= g[x].edges && At(base, x).back <= g[x].back;
      }
    }
  }

  // ----- popping -----

  function PopEdge(g: Graph, x: nat): Graph
    requires x < |g| && g[x].edges != [] && g[x].edges[|g[x].edges| - 1] < |g|
  {
    var y := g[x].edges[|g[x].edges| - 1];
    var h := g[x := g[x].(edges := g[x].edges[..|g[x].edges| - 1])];
    h[y := h[y].(back := Without(h[y].back, x))]
  }

  /** h is g without the last edge of x. */
  ghost predicate Popped(g: Graph, h: Graph, x: nat, y: nat)
    requires x < |g| && y < |g| && g[x].edges != []
  {
    && |h| == |g|
    && (forall a :: 0 <= a < |g| ==> h[a].rmw == g[a].rmw)
    && (forall a :: 0 <= a < |g| && a != x ==> h[a].edges == g[a].edges)
    && (forall a :: 0 <= a < |g| && a != y ==> h[a].back == g[a].back)
    && y == g[x].edges[|g[x].edges| - 1]
    && h[x].edges == g[x].edges[..|g[x].edges| - 1]
    && h[y].back == Without(g[y].back, x)
  }

  lemma PopEdgeShape(g: Graph, x: nat)
    requires WellFormed(g) && x < |g| && g[x].edges != []
    ensures g[x].edges[|g[x].edges| - 1] < |g|
    ensures Popped(g, PopEdge(g, x), x, g[x].edges[|g[x].edges| - 1])
  {
    assert NodeList(|g|, g[x].edges);
  }

  lemma PoppedWellFormed(g: Graph, h: Graph, x: nat, y: nat)
    requires WellFormed(g) && x < |g| && y < |g| && g[x].edges != [] && Popped(g, h, x, y)
    ensures WellFormed(h)
  {
    WithoutDistinct(|g|, g[y].back, x);
    var last := |g[x].edges| - 1;
    assert NodeList(|g|, g[x].edges);
    assert NodeList(|g|, g[x].edges[..last]);
    PoppedMirrored(g, h, x, y);
  }

  lemma PoppedMirrored(g: Graph, h: Graph, x: nat, y: nat)
    requires WellFormed(g) && x < |g| && y < |g| && g[x].edges != [] && Popped(g, h, x, y)
    ensures Mirrored(h)
  {
    WithoutDistinct(|g|, g[y].back, x);
    var es := g[x].edges;
    assert NodeList(|g|, es);
    assert es == es[..|es| - 1] + [y] && y !in es[..|es| - 1];
    forall a: nat, b: nat | a < |h| && b < |h|
      ensures b in h[a].edges <==> a in h[b].back
    {
      assert b in g[a].edges <==> a in g[b].back;
      if a == x {
        assert b in h[x].edges <==> b in es && b != y;
      } else if b == y {
        WithoutMember(g[y].back, x, a);
      }
    }
  }

  lemma PoppedExtends(base: Graph, g: Graph, h: Graph, log: seq<nat>, rmwLog: seq<nat>, x: nat, y: nat)
    requires WellFormed(base) && WellFormed(g) && Extends(base, g, [x] + log, rmwLog)
    requires x < |g| && y < |g| && g[x].edges != [] && Popped(g, h, x, y)
    ensures Extends(base, h, log, rmwLog)
  {
    var es := g[x].edges;
    assert At(base, x).edges <= es && |es| == |At(base, x).edges| + Count([x] + log, x);
    assert NodeList(|g|, es);
    assert y !in At(base, x).edges;
    assert x !in At(base, y).back;
    WithoutPrefix(At(base, y).back, g[y].back, x);
    forall a | 0 <= a < |h|
      ensures At(base, a).edges <= h[a].edges && |h[a].edges| == |At(base, a).edges| + Count(log, a)
    {
      assert At(base, a).edges <= g[a].edges && |g[a].edges| == |At(base, a).edges| + Count([x] + log, a);
    }
    forall a | 0 <= a < |h|
      ensures At(base, a).back <= h[a].back
    {
      assert At(base, a).back <= g[a].back;
    }
  }

  /** With nothing left in the edge log, every list is the committed one. */
  lemma Undone(base: Graph, g: Graph, rmwLog: seq<nat>, x: nat)
    requires WellFormed(base) && WellFormed(g) && Extends(base, g, [], rmwLog) && x < |g|
    ensures g[x].edges == At(base, x).edges && g[x].back == At(base, x).back
  {
    assert forall a :: 0 <= a < |g| ==> g[a].edges == At(base, a).edges;
    var old_, now := At(base, x).back, g[x].back;
    assert old_ <= now && NodeList(|g|, now);
    if |old_| < |now| {
      BackInBase(base, g, rmwLog, x, now[|old_|]);
    }
  }

  lemma BackInBase(base: Graph, g: Graph, rmwLog: seq<nat>, x: nat, z: nat)
    requires WellFormed(base) && WellFormed(g) && Extends(base, g, [], rmwLog) && x < |g|
    requires z in g[x].back
    ensures z in At(base, x).back
  {
    assert z < |g| && x in g[z].edges;
    assert g[z].edges == At(base, z).edges;
  }

  // ----- what the calls log -----

  ghost function ChainLog(g: Graph, from: nat, to: nat): seq<nat>
    requires from < |g| && to < |g|
  {
    if g[from].rmw.None? then []
    else
      var e := ChainStop(g, g[from].rmw.value, to);
      if e == to || to in g[e].edges then [] else [e]
  }

  /** The nodes whose lists an edge addition lengthens, in order. */
  ghost function EdgeLog(g: Graph, from: nat, to: nat): seq<nat>
    requires from < |g| && to < |g|
  {
    if to in g[from].edges then [] else [from] + ChainLog(PushEdge(g, from, to), from, to)
  }

  lemma AddNodeEdgeExtends(base: Graph, s: State, log: seq<nat>, rmwLog: seq<nat>, from: nat, to: nat)
    requires Extends(base, s.g, log, rmwLog)
    requires from < |s.g| && to < |s.g|
    ensures Extends(base, AddNodeEdge(s, from, to).g, log + EdgeLog(s.g, from, to), rmwLog)
  {
    if to in s.g[from].edges {
      assert log + [] == log;
    } else {
      var g1 := PushEdge(s.g, from, to);
      PushExtends(base, s.g, log, rmwLog, from, to);
      if g1[from].rmw.Some? {
        var e := ChainStop(g1, g1[from].rmw.value, to);
        if e != to && to !in g1[e].edges {
          PushExtends(base, g1, log + [from], rmwLog, e, to);
          assert log + [from] + [e] == log + ([from] + [e]);
        } else {
          assert log + [from] == log + ([from] + []);
        }
      } else {
        assert log + [from] == log + ([from] + []);
      }
    }
  }

  ghost function ClearRmw(g: Graph, x: nat): Graph
    requires x < |g|
  {
    g[x := g[x].(rmw := None)]
  }

  lemma ClearExtends(base: Graph, g: Graph, rmwLog: seq<nat>, x: nat)
    requires Extends(base, g, [], [x] + rmwLog) && x < |g| && WellFormed(g)
    ensures Extends(base, ClearRmw(g, x), [], rmwLog) && WellFormed(ClearRmw(g, x))
  {
    var h := ClearRmw(g, x);
    assert forall a :: 0 <= a < |g| ==> h[a].edges == g[a].edges && h[a].back == g[a].back;
    assert Mirrored(h);
    forall a | 0 <= a < |h|
      ensures if a in rmwLog then At(base, a).rmw.None? else h[a].rmw == At(base, a).rmw
    {
      assert a in [x] + rmwLog <==> a == x || a in rmwLog;
      assert g[a].rmw == g[a].rmw;
    }
  }

  /** A graph followed by n nodes without edges. */
  ghost function Padded(g: Graph, n: nat): (h: Graph)
    ensures |h| == |g| + n
  {
    if n == 0 then g else Padded(g, n - 1) + [EMPTY_NODE]
  }

  lemma {:induction false} PaddedTwice(g: Graph, m: nat, n: nat)
    ensures Padded(Padded(g, m), n) == Padded(g, m + n)
  {
    if n > 0 {
      PaddedTwice(g, m, n - 1);
    }
  }

  lemma {:induction false} PaddedAt(g: Graph, n: nat)
    ensures forall x :: 0 <= x < |g| + n ==> Padded(g, n)[x] == At(g, x)
  {
    if n > 0 {
      PaddedAt(g, n - 1);
    }
  }

  lemma {:induction false} PaddedInv(s: State, rank: seq<nat>, reqs: seq<Request>, n: nat) returns (rank': seq<nat>)
    requires Inv(s, rank, reqs)
    ensures Inv(State(Padded(s.g, n), s.cyclic), rank', reqs)
  {
    rank' := rank;
    if n > 0 {
      var r := PaddedInv(s, rank, reqs, n - 1);
      AddNodeInv(State(Padded(s.g, n - 1), s.cyclic), r, reqs);
      rank' := r + [0];
    }
  }

  lemma UndoneAll(base: Graph, g: Graph)
    requires WellFormed(base) && WellFormed(g) && Extends(base, g, [], [])
    ensures |base| <= |g| && g == Padded(base, |g| - |base|)
  {
    PaddedAt(base, |g| - |base|);
    forall x | 0 <= x < |g|
      ensures g[x] == At(base, x)
    {
      Undone(base, g, [], x);
      assert g[x].rmw == At(base, x).rmw;
    }
  }

  /** The log of copying edges to a new reader. */
  ghost function CopyLog(g: Graph, rmw: nat, ts: seq<nat>): seq<nat>
    requires rmw < |g| && InRange(g, ts)
    decreases |ts|
  {
    if ts == [] then []
    else if ts[0] == rmw then CopyLog(g, rmw, ts[1..])
    else (if ts[0] in g[rmw].edges then [] else [rmw]) + CopyLog(PushEdge(g, rmw, ts[0]), rmw, ts[1..])
  }

  /** One turn of the copying loop. */
  lemma CopyUnfold(g: Graph, rmw: nat, ts: seq<nat>, i: nat, log: seq<nat>)
    requires rmw < |g| && i < |ts| && InRange(g, ts[i..])
    ensures var h := if ts[i] == rmw then g else PushEdge(g, rmw, ts[i]);
            var log' := if ts[i] == rmw || ts[i] in g[rmw].edges then log else log + [rmw];
            && InRange(h, ts[i + 1..])
            && CopyEdges(g, rmw, ts[i..]) == CopyEdges(h, rmw, ts[i + 1..])
            && log + CopyLog(g, rmw, ts[i..]) == log' + CopyLog(h, rmw, ts[i + 1..])
  {
    hide PushEdge;
    var t := ts[i..];
    assert t != [] && t[0] == ts[i] && t[1..] == ts[i + 1..];
    if ts[i] != rmw {
      var h := PushEdge(g, rmw, ts[i]);
      PushEdgeShape(g, rmw, ts[i]);
      var rest := CopyLog(h, rmw, ts[i + 1..]);
      if ts[i] in g[rmw].edges {
        assert CopyLog(g, rmw, t) == [] + rest == rest;
      } else {
        assert CopyLog(g, rmw, t) == [rmw] + rest;
        Assoc(log, [rmw], rest);
      }
    }
  }

  lemma CopyUnfoldEnd(g: Graph, rmw: nat, log: seq<nat>)
    requires rmw < |g|
    ensures CopyEdges(g, rmw, []) == g && log + CopyLog(g, rmw, []) == log
  {
  }

  lemma {:induction false} CopyExtends(base: Graph, g: Graph, rmw: nat, ts: seq<nat>, log: seq<nat>, rmwLog: seq<nat>)
    requires rmw < |g| && InRange(g, ts) && Extends(base, g, log, rmwLog)
    ensures Extends(base, CopyEdges(g, rmw, ts), log + CopyLog(g, rmw, ts), rmwLog)
    decreases |ts|
  {
    if ts == [] {
      assert log + [] == log;
    } else if ts[0] == rmw {
      CopyExtends(base, g, rmw, ts[1..], log, rmwLog);
    } else {
      var step := if ts[0] in g[rmw].edges then [] else [rmw];
      var h := PushEdge(g, rmw, ts[0]);
      if ts[0] in g[rmw].edges {
        assert log + step == log;
      } else {
        PushExtends(base, g, log, rmwLog, rmw, ts[0]);
      }
      CopyExtends(base, h, rmw, ts[1..], log + step, rmwLog);
      Assoc(log, step, CopyLog(h, rmw, ts[1..]));
    }
  }

  ghost function AttachLog(g: Graph, from: nat, rmw: nat): seq<nat>
    requires from < |g| && rmw < |g| && InRange(g, g[from].edges)
  {
    CopyLog(Attached(g, from, rmw), rmw, g[from].edges)
  }

  ghost function RmwEdgeLog(s: State, from: nat, rmw: nat): seq<nat>
    requires from < |s.g| && rmw < |s.g| && InRange(s.g, s.g[from].edges)
  {
    CopyEdgesRmw(Attached(s.g, from, rmw), rmw, s.g[from].edges);
    AttachLog(s.g, from, rmw) + EdgeLog(Copied(s, from, rmw).g, from, rmw)
  }

  lemma CopiedExtends(base: Graph, s: State, log: seq<nat>, rmwLog: seq<nat>, from: nat, rmw: nat)
    requires Extends(base, s.g, log, rmwLog)
    requires from < |s.g| && rmw < |s.g| && InRange(s.g, s.g[from].edges)
    ensures Extends(base, Copied(s, from, rmw).g, log + AttachLog(s.g, from, rmw),
                    if s.g[from].rmw.Some? then rmwLog else rmwLog + [from])
  {
    if s.g[from].rmw.None? {
      SetRmwExtends(base, s.g, log, rmwLog, from, rmw);
    }
    CopyExtends(base, Attached(s.g, from, rmw), rmw, s.g[from].edges, log,
                if s.g[from].rmw.Some? then rmwLog else rmwLog + [from]);
  }

  lemma AddRmwEdgeExtends(base: Graph, s: State, log: seq<nat>, rmwLog: seq<nat>, from: nat, rmw: nat)
    requires Extends(base, s.g, log, rmwLog)
    requires from < |s.g| && rmw < |s.g| && InRange(s.g, s.g[from].edges)
    ensures Extends(base, AddRmwEdge(s, from, rmw).g, log + RmwEdgeLog(s, from, rmw),
                    if s.g[from].rmw.Some? then rmwLog else rmwLog + [from])
  {
    var rmwLog' := if s.g[from].rmw.Some? then rmwLog else rmwLog + [from];
    var mid := log + AttachLog(s.g, from, rmw);
    CopiedExtends(base, s, log, rmwLog, from, rmw);
    CopyEdgesRmw(Attached(s.g, from, rmw), rmw, s.g[from].edges);
    AddNodeEdgeExtends(base, Copied(s, from, rmw), mid, rmwLog', from, rmw);
    Assoc(log, AttachLog(s.g, from, rmw), EdgeLog(Copied(s, from, rmw).g, from, rmw));
  }

  lemma Assoc(a: seq<nat>, b: seq<nat>, c: seq<nat>)
    ensures a + b + c == a + (b + c)
  {
  }

  // ----- a graph with its last commit -----

  /** A graph, its chain heights, and the requests it has been given. */
  datatype Record = Record(s: State, rank: seq<nat>, reqs: seq<Request>)

  ghost predicate Sound(r: Record) {
    Inv(r.s, r.rank, r.reqs)
  }

  /** The current graph decides its requests, so did the committed one, and the logs lead back to it. */
  ghost predicate Tracked(now: Record, last: Record, log: seq<nat>, rmwLog: seq<nat>) {
    Sound(now) && Sound(last) && Extends(last.s.g, now.s.g, log, rmwLog)
  }

  lemma TrackedCommit(now: Record, last: Record, log: seq<nat>, rmwLog: seq<nat>)
    requires Tracked(now, last, log, rmwLog)
    ensures Tracked(now, now, [], [])
  {
    ExtendsRefl(now.s.g);
  }

  lemma TrackedEdge(now: Record, last: Record, log: seq<nat>, rmwLog: seq<nat>, from: nat, to: nat)
    requires Tracked(now, last, log, rmwLog) && from < |now.s.g| && to < |now.s.g|
    ensures Ranked(now.s.g, now.rank)
    ensures Tracked(Record(AddNodeEdge(now.s, from, to), now.rank, now.reqs + [Before(from, to)]), last,
                    log + EdgeLog(now.s.g, from, to), rmwLog)
  {
    AddNodeEdgeInv(now.s, now.rank, now.reqs, from, to);
    AddNodeEdgeExtends(last.s.g, now.s, log, rmwLog, from, to);
  }

  lemma TrackedRmw(now: Record, last: Record, log: seq<nat>, rmwLog: seq<nat>, from: nat, rmw: nat, rank: seq<nat>)
    requires Tracked(now, last, log, rmwLog) && from < |now.s.g| && Fresh(now.s.g, rmw) && from != rmw
    requires now.s.g[from].rmw.Some? ==> rank == now.rank
    requires Ranked(Attached(now.s.g, from, rmw), rank)
    ensures InRange(now.s.g, now.s.g[from].edges)
    ensures Tracked(Record(AddRmwEdge(now.s, from, rmw), rank, now.reqs + [ReadByRmw(from, rmw)]), last,
                    log + RmwEdgeLog(now.s, from, rmw),
                    if now.s.g[from].rmw.Some? then rmwLog else rmwLog + [from])
  {
    assert NodeList(|now.s.g|, now.s.g[from].edges);
    if now.s.g[from].rmw.Some? {
      AddRmwEdgeTaken(now.s, rank, now.reqs, from, rmw);
    } else {
      AddRmwEdgeInv(now.s, now.rank, rank, now.reqs, from, rmw);
    }
    AddRmwEdgeExtends(last.s.g, now.s, log, rmwLog, from, rmw);
  }

  lemma TrackedNode(now: Record, last: Record, log: seq<nat>, rmwLog: seq<nat>)
    requires Tracked(now, last, log, rmwLog)
    requires (forall i :: 0 <= i < |log| ==> log[i] < |now.s.g|)
             && (forall i :: 0 <= i < |rmwLog| ==> rmwLog[i] < |now.s.g|)
    ensures Tracked(Record(State(now.s.g + [EMPTY_NODE], now.s.cyclic), now.rank + [0], now.reqs), last, log, rmwLog)
    ensures Fresh(now.s.g + [EMPTY_NODE], |now.s.g|)
  {
    AddNodeInv(now.s, now.rank, now.reqs);
    AddNodeExtends(last.s.g, now.s.g, log, rmwLog);
  }

  /** Once the logs are spent, the graph is the committed one with nodes that have no edges. */
  lemma TrackedUndone(last: Record, g: Graph) returns (rank: seq<nat>)
    requires Sound(last) && WellFormed(g) && Extends(last.s.g, g, [], [])
    ensures g == Padded(last.s.g, |g| - |last.s.g|)
    ensures Tracked(Record(State(g, last.s.cyclic), rank, last.reqs), last, [], [])
  {
    hide Inv, Padded, Extends, WellFormed;
    SoundWellFormed(last);
    UndoneAll(last.s.g, g);
    rank := PaddedInv(last.s, last.rank, last.reqs, |g| - |last.s.g|);
  }

  /** Heights after a node without a reader becomes the reader of a write. */
  ghost function ReaderRank(rank: seq<nat>, rmw: nat): (r: seq<nat>)
    ensures |r| == |rank| && forall i :: 0 <= i < |rank| ==> r[i] == if i == rmw then 0 else rank[i] + 1
  {
    seq(|rank|, i requires 0 <= i < |rank| => if i == rmw then 0 else rank[i] + 1)
  }

  lemma ReaderRanked(g: Graph, rank: seq<nat>, from: nat, rmw: nat)
    requires Ranked(g, rank) && from < |g| && Unread(g, rmw) && from != rmw
    ensures Ranked(SetRmw(g, from, rmw), ReaderRank(rank, rmw))
  {
  }

  // ----- the undo loops -----

  /** Popping from a node without edges does nothing. */
  ghost function PopLogged(g: Graph, x: nat): (h: Graph)
    ensures |h| == |g|
  {
    if x < |g| && g[x].edges != [] && g[x].edges[|g[x].edges| - 1] < |g| then PopEdge(g, x) else g
  }

  ghost function UndoEdges(g: Graph, log: seq<nat>): (h: Graph)
    ensures |h| == |g|
    decreases |log|
  {
    if log == [] then g else UndoEdges(PopLogged(g, log[0]), log[1..])
  }

  ghost function UndoReaders(g: Graph, log: seq<nat>): (h: Graph)
    ensures |h| == |g|
    decreases |log|
  {
    if log == [] then g else UndoReaders(if log[0] < |g| then ClearRmw(g, log[0]) else g, log[1..])
  }

  lemma {:induction false} UndoEdgesExtends(base: Graph, g: Graph, log: seq<nat>, rmwLog: seq<nat>)
    requires WellFormed(base) && WellFormed(g) && Extends(base, g, log, rmwLog)
    requires forall i :: 0 <= i < |log| ==> log[i] < |g|
    ensures WellFormed(UndoEdges(g, log)) && Extends(base, UndoEdges(g, log), [], rmwLog)
    decreases |log|
  {
    if log != [] {
      var x := log[0];
      assert log == [x] + log[1..];
      assert Count(log, x) > 0 && g[x].edges != [];
      var y := g[x].edges[|g[x].edges| - 1];
      PopEdgeShape(g, x);
      PoppedWellFormed(g, PopEdge(g, x), x, y);
      PoppedExtends(base, g, PopEdge(g, x), log[1..], rmwLog, x, y);
      UndoEdgesExtends(base, PopEdge(g, x), log[1..], rmwLog);
    }
  }

  lemma {:induction false} UndoReadersExtends(base: Graph, g: Graph, rmwLog: seq<nat>)
    requires WellFormed(g) && Extends(base, g, [], rmwLog)
    requires forall i :: 0 <= i < |rmwLog| ==> rmwLog[i] < |g|
    ensures WellFormed(UndoReaders(g, rmwLog)) && Extends(base, UndoReaders(g, rmwLog), [], [])
    decreases |rmwLog|
  {
    if rmwLog != [] {
      assert rmwLog == [rmwLog[0]] + rmwLog[1..];
      ClearExtends(base, g, rmwLog[1..], rmwLog[0]);
      UndoReadersExtends(base, ClearRmw(g, rmwLog[0]), rmwLog[1..]);
    }
  }

  lemma SoundWellFormed(r: Record)
    requires Sound(r)
    ensures WellFormed(r.s.g) && Ranked(r.s.g, r.rank)
  {
  }

  /** Rolling back gives the graph of the last commit, followed by nodes that have no edges. */
  lemma RollbackRestores(now: Record, last: Record, log: seq<nat>, rmwLog: seq<nat>) returns (rank: seq<nat>)
    requires Tracked(now, last, log, rmwLog)
    requires forall i :: 0 <= i < |log| ==> log[i] < |now.s.g|
    requires forall i :: 0 <= i < |rmwLog| ==> rmwLog[i] < |now.s.g|
    ensures var g := UndoReaders(UndoEdges(now.s.g, log), rmwLog);
            && |last.s.g| <= |g| && g == Padded(last.s.g, |g| - |last.s.g|)
            && Tracked(Record(State(g, last.s.cyclic), rank, last.reqs), last, [], [])
  {
    hide Inv, WellFormed, Extends, UndoEdges, Ranked;
    assert WellFormed(last.s.g) && WellFormed(now.s.g) by { SoundWellFormed(last); SoundWellFormed(now); }
    UndoEdgesExtends(last.s.g, now.s.g, log, rmwLog);
    UndoReadersExtends(last.s.g, UndoEdges(now.s.g, log), rmwLog);
    rank := TrackedUndone(last, UndoReaders(UndoEdges(now.s.g, log), rmwLog));
  }

  ghost function AttachRank(g: Graph, rank: seq<nat>, from: nat, rmw: nat): seq<nat>
    requires from < |g|
  {
    if g[from].rmw.Some? then rank else ReaderRank(rank, rmw)
  }

  /** Attaching a reader keeps the lists well formed, and what remains ends if adding the edge alone did. */
  lemma AttachShape(s: State, from: nat, rmw: nat)
    requires WellFormed(s.g) && from < |s.g| && rmw < |s.g|
    ensures InRange(s.g, s.g[from].edges)
    ensures WellFormed(Copied(s, from, rmw).g) && WellFormed(AddRmwEdge(s, from, rmw).g)
    ensures |AddRmwEdge(s, from, rmw).g| == |s.g|
            && forall a :: 0 <= a < |s.g| ==> AddRmwEdge(s, from, rmw).g[a].rmw == Attached(s.g, from, rmw)[a].rmw
    ensures Ends(s.g, from, rmw) ==> Ends(Copied(s, from, rmw).g, from, rmw)
  {
    hide PushEdge, ChainStep, Stops, WellFormed;
    TargetsInRange(s.g, from);
    var g, h := Attached(s.g, from, rmw), Copied(s, from, rmw).g;
    SetRmwFacts(s.g, from, rmw);
    CopyEdgesRmw(g, rmw, s.g[from].edges);
    CopyEdgesFacts(g, rmw, s.g[from].edges);
    AddNodeEdgeShape(Copied(s, from, rmw), from, rmw);
    if s.g[from].rmw.Some? {
      SameStops(s.g, h, s.g[from].rmw.value, rmw);
      assert rmw in s.g[from].edges ==> (from, rmw) in Pairs(s.g);
    } else {
      ChainStopStep(h, rmw, rmw);
    }
  }

  lemma AttachFacts(s: State, rank: seq<nat>, from: nat, rmw: nat)
    requires WellFormed(s.g) && Ranked(s.g, rank) && from < |s.g| && Unread(s.g, rmw) && from != rmw
    ensures var rank' := AttachRank(s.g, rank, from, rmw);
            && InRange(s.g, s.g[from].edges)
            && Ranked(Attached(s.g, from, rmw), rank') && Ranked(Copied(s, from, rmw).g, rank')
            && WellFormed(AddRmwEdge(s, from, rmw).g) && Ranked(AddRmwEdge(s, from, rmw).g, rank')
  {
    hide PushEdge, ChainStep;
    AttachShape(s, from, rmw);
    ReaderRanked(s.g, rank, from, rmw);
    CopyEdgesRmw(Attached(s.g, from, rmw), rmw, s.g[from].edges);
  }

  lemma {:induction false} PaddedWellFormed(g: Graph, n: nat)
    requires WellFormed(g)
    ensures WellFormed(Padded(g, n))
  {
    if n > 0 {
      PaddedWellFormed(g, n - 1);
      AddNodeFacts(Padded(g, n - 1));
    }
  }

  /** A node that had no reader, or is new, has none in the longer graph. */
  lemma PaddedUnread(g: Graph, n: nat, r: nat)
    requires if r < |g| then Unread(g, r) else r < |g| + n
    ensures Unread(Padded(g, n), r)
  {
    PaddedAt(g, n);
  }

  lemma {:induction false} PaddedStopsIn(g: Graph, k: nat, r: nat, to: nat, n: nat)
    requires StopsIn(g, r, to, n)
    ensures StopsIn(Padded(g, k), r, to, n) && StopIn(Padded(g, k), r, to, n) == StopIn(g, r, to, n)
    decreases n
  {
    PaddedAt(g, k);
    if r != to && g[r].rmw.Some? && n > 0 {
      PaddedStopsIn(g, k, g[r].rmw.value, to, n - 1);
    }
  }

  /** Adding an edge still comes to an end in the longer graph, and always does from a new node. */
  lemma PaddedEnds(g: Graph, k: nat, from: nat, to: nat)
    requires if from < |g| then Ends(g, from, to) else from < |g| + k
    ensures Ends(Padded(g, k), from, to)
  {
    PaddedAt(g, k);
    if from < |g| && g[from].rmw.Some? {
      if n: nat :| StopsIn(g, g[from].rmw.value, to, n) {
        PaddedStopsIn(g, k, g[from].rmw.value, to, n);
      }
    }
  }

  /** One turn of the popping loop; popping keeps lists well formed and leaves readers alone. */
  lemma UndoUnfold(g: Graph, log: seq<nat>, i: nat)
    requires i < |log| && WellFormed(g) && log[i] < |g|
    ensures var h := PopLogged(g, log[i]);
            && UndoEdges(g, log[i..]) == UndoEdges(h, log[i + 1..]) && WellFormed(h)
  {
    assert log[i..][0] == log[i] && log[i..][1..] == log[i + 1..];
    if g[log[i]].edges != [] {
      PopEdgeShape(g, log[i]);
      PoppedWellFormed(g, PopEdge(g, log[i]), log[i], g[log[i]].edges[|g[log[i]].edges| - 1]);
    }
  }

  lemma ClearUnfold(g: Graph, log: seq<nat>, i: nat)
    requires i < |log| && WellFormed(g) && log[i] < |g|
    ensures var h := ClearRmw(g, log[i]);
            && UndoReaders(g, log[i..]) == UndoReaders(h, log[i + 1..]) && WellFormed(h)
  {
    assert log[i..][0] == log[i] && log[i..][1..] == log[i + 1..];
    var h := ClearRmw(g, log[i]);
    assert forall a :: 0 <= a < |g| ==> h[a].edges == g[a].edges && h[a].back == g[a].back;
    assert Mirrored(h);
  }

  lemma UndoEnd(g: Graph)
    ensures UndoEdges(g, []) == g && UndoReaders(g, []) == g
  {
  }
}
