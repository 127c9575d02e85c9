/**
 * What the C++11 memory model asks of a modification order (sections 1.10 and 29.3 of
 * ISO/IEC 14882:2011), and how the requests made to the graph carry it.
 */
module Coherence {
  import opened Relations
  import opened GraphTheory
  import opened HappensBefore

  datatype MemoryOrder = Relaxed | Acquire | Release | AcqRel | SeqCst

  datatype Kind = Read | Write | Rmw | Fence | Other

  /** rf is the write that a read or read-modify-write observes. */
  datatype Action = Action(kind: Kind, order: MemoryOrder, tid: nat, loc: nat, rf: nat) {
    predicate IsRead() { kind.Read? || kind.Rmw? }
    predicate IsWrite() { kind.Write? || kind.Rmw? }
    predicate IsAccess() { IsRead() || IsWrite() }
    predicate IsAcquire() { order.Acquire? || order.AcqRel? || order.SeqCst? }
    predicate IsRelease() { order.Release? || order.AcqRel? || order.SeqCst? }
    predicate IsSeqCst() { order.SeqCst? }
    predicate IsScFence() { kind.Fence? && order.SeqCst? }
    predicate IsScWrite() { IsWrite() && order.SeqCst? }
  }

  type Trace = seq<Action>

  ghost function Tids(tr: Trace): (r: seq<nat>)
    ensures |r| == |tr| && forall i :: 0 <= i < |tr| ==> r[i] == tr[i].tid
  {
    seq(|tr|, i requires 0 <= i < |tr| => tr[i].tid)
  }

  /** Reads observe earlier writes of the same location. */
  ghost predicate ReadsOk(tr: Trace) {
    forall b {:trigger tr[b].rf} :: 0 <= b < |tr| && tr[b].IsRead() ==>
      tr[b].rf < b && tr[tr[b].rf].IsWrite() && tr[tr[b].rf].loc == tr[b].loc
  }

  ghost predicate SameVar(tr: Trace, a: nat, b: nat) {
    a < |tr| && b < |tr| && tr[a].IsAccess() && tr[b].IsAccess() && tr[a].loc == tr[b].loc
  }

  /** The write that an access makes or observes. */
  function Wr(tr: Trace, a: nat): nat
    requires a < |tr|
  {
    if tr[a].IsWrite() then a else tr[a].rf
  }

  // ----- the rules for sequentially consistent fences; the trace order is the order S -----

  /** Paragraph 4: a seq_cst write before a seq_cst fence of b's thread that precedes b. */
  ghost predicate Rule4(tr: Trace, a: nat, b: nat)
    requires a < |tr| && b < |tr|
  {
    tr[a].IsSeqCst() && exists y :: a < y < b && tr[y].IsScFence() && tr[y].tid == tr[b].tid
  }

  /** Paragraph 5: a is sequenced before a seq_cst fence that precedes the seq_cst operation b. */
  ghost predicate Rule5(tr: Trace, a: nat, b: nat)
    requires a < |tr| && b < |tr|
  {
    tr[b].IsSeqCst() && exists x :: a < x < b && tr[x].IsScFence() && tr[x].tid == tr[a].tid
  }

  /** Paragraphs 6 and 7: a before a fence of its thread, that before a fence of b's thread, that before b. */
  ghost predicate Rule67(tr: Trace, a: nat, b: nat)
    requires a < |tr| && b < |tr|
  {
    exists x, y ::
      a < x < y < b && tr[x].IsScFence() && tr[x].tid == tr[a].tid && tr[y].IsScFence() && tr[y].tid == tr[b].tid
  }

  /** b, a read, must not observe anything older than the write a. */
  ghost predicate FenceRead(tr: Trace, a: nat, b: nat) {
    && a < b && SameVar(tr, a, b) && tr[a].IsWrite()
    && (Rule4(tr, a, b) || Rule5(tr, a, b) || Rule67(tr, a, b))
  }

  /** b, a write, must be later than the write a. */
  ghost predicate FenceWrite(tr: Trace, a: nat, b: nat) {
    && a < b && SameVar(tr, a, b) && tr[a].IsWrite()
    && (Rule67(tr, a, b) || (tr[a].IsSeqCst() && tr[b].IsSeqCst()))
  }

  /** What a coherent read at b must not be older than: whatever happens before it, or the fences order. */
  ghost predicate MustRead(tr: Trace, rel: Rel, a: nat, b: nat) {
    a < b && SameVar(tr, a, b) && (Reach(rel, a, b) || FenceRead(tr, a, b))
  }

  ghost predicate MustWrite(tr: Trace, rel: Rel, a: nat, b: nat) {
    a < b && SameVar(tr, a, b) && (Reach(rel, a, b) || FenceWrite(tr, a, b))
  }

  /**
   * A modification order that satisfies the standard: the four coherence rules, the fence rules, the
   * order of seq_cst writes, and every read-modify-write right after the write it observes.
   */
  ghost predicate Axioms(tr: Trace, rel: Rel, order: seq<nat>) {
    && Distinct(order)
    && (forall a: nat, b: nat :: MustRead(tr, rel, a, b) && tr[b].IsRead() ==>
          Wr(tr, a) == tr[b].rf || Precedes(order, Wr(tr, a), tr[b].rf))
    && (forall a: nat, b: nat :: MustWrite(tr, rel, a, b) && tr[b].IsWrite() ==> Precedes(order, Wr(tr, a), b))
    && (forall b :: 0 <= b < |tr| && tr[b].kind.Rmw? ==> Adjacent(order, tr[b].rf, b))
  }

  // ----- what has been asked of the graph -----

  ghost function PairOf(q: Request): (nat, nat) {
    match q
    case Before(a, b) => (a, b)
    case ReadByRmw(w, r) => (w, r)
  }

  ghost function Wanted(asked: seq<Request>): Rel {
    set q | q in asked :: PairOf(q)
  }

  /** a is b or is asked to precede b, possibly through others. */
  ghost predicate MoLe(asked: seq<Request>, a: nat, b: nat) {
    Reach(Wanted(asked), a, b)
  }

  lemma MoLeMono(asked: seq<Request>, asked': seq<Request>, a: nat, b: nat)
    requires asked <= asked' && MoLe(asked, a, b)
    ensures MoLe(asked', a, b)
  {
    assert Wanted(asked) <= Wanted(asked') by {
      forall q | q in asked
        ensures q in asked'
      {
      }
    }
    ReachMono(Wanted(asked), Wanted(asked'), a, b);
  }

  lemma MoLeTrans(asked: seq<Request>, a: nat, b: nat, c: nat)
    requires MoLe(asked, a, b) && MoLe(asked, b, c)
    ensures MoLe(asked, a, c)
  {
    ReachTrans(Wanted(asked), a, b, c);
  }

  lemma MoLeAsked(asked: seq<Request>, q: Request)
    requires q in asked
    ensures MoLe(asked, PairOf(q).0, PairOf(q).1)
  {
    ReachPair(Wanted(asked), PairOf(q).0, PairOf(q).1);
  }

  /** Everything that must precede, precedes by request. */
  ghost predicate Ordered(tr: Trace, rel: Rel, asked: seq<Request>) {
    && (forall a: nat, b: nat {:trigger MustRead(tr, rel, a, b)} ::
          MustRead(tr, rel, a, b) && tr[b].IsRead() ==> MoLe(asked, Wr(tr, a), tr[b].rf))
    && (forall a: nat, b: nat {:trigger MustWrite(tr, rel, a, b)} ::
          MustWrite(tr, rel, a, b) && tr[b].IsWrite() ==> MoLe(asked, Wr(tr, a), b))
    && (forall b {:trigger tr[b].kind} :: 0 <= b < |tr| && tr[b].kind.Rmw? ==> ReadByRmw(tr[b].rf, b) in asked)
  }

  /** Nothing is asked that the standard does not demand. */
  ghost predicate Justified(tr: Trace, rel: Rel, asked: seq<Request>) {
    forall q, order :: q in asked && Axioms(tr, rel, order) ==> Meets(order, q)
  }

  /** Requests are about writes of the trace; a reader is new when it is attached. */
  ghost predicate LogOk(tr: Trace, asked: seq<Request>) {
    && (forall i {:trigger asked[i]} :: 0 <= i < |asked| ==> PairOf(asked[i]).0 < |tr| && PairOf(asked[i]).1 < |tr|)
    && (forall i {:trigger asked[i]} :: 0 <= i < |asked| && asked[i].ReadByRmw? ==> asked[i].w < asked[i].r)
    && (forall i, j :: 0 <= j < i < |asked| && asked[i].ReadByRmw? ==>
          PairOf(asked[j]).0 < asked[i].r && PairOf(asked[j]).1 < asked[i].r)
  }

  ghost predicate TraceOk(tr: Trace, rel: Rel) {
    ReadsOk(tr) && Forward(rel, |tr|) && ProgramOrder(Tids(tr), rel)
  }

  ghost predicate Coherent(tr: Trace, rel: Rel, asked: seq<Request>) {
    TraceOk(tr, rel) && Ordered(tr, rel, asked) && Justified(tr, rel, asked) && LogOk(tr, asked)
  }

  // ----- the requests and the standard ask for the same orders -----

  /** An order that meets the requests satisfies the standard. */
  lemma RequestsSuffice(tr: Trace, rel: Rel, asked: seq<Request>, order: seq<nat>)
    requires Coherent(tr, rel, asked) && Satisfies(order, asked)
    ensures Axioms(tr, rel, order)
  {
    forall x, y | (x, y) in Wanted(asked)
      ensures Precedes(order, x, y)
    {
      var q :| q in asked && PairOf(q) == (x, y);
      assert Meets(order, q);
    }
    forall a: nat, b: nat | MustRead(tr, rel, a, b) && tr[b].IsRead()
      ensures Wr(tr, a) == tr[b].rf || Precedes(order, Wr(tr, a), tr[b].rf)
    {
      assert MoLe(asked, Wr(tr, a), tr[b].rf);
      if Wr(tr, a) != tr[b].rf {
        OrderFollowsReach(Wanted(asked), order, Wr(tr, a), tr[b].rf);
      }
    }
    forall a: nat, b: nat | MustWrite(tr, rel, a, b) && tr[b].IsWrite()
      ensures Precedes(order, Wr(tr, a), b)
    {
      assert MoLe(asked, Wr(tr, a), b);
      assert Wr(tr, a) < b;
      OrderFollowsReach(Wanted(asked), order, Wr(tr, a), b);
    }
    forall b | 0 <= b < |tr| && tr[b].kind.Rmw?
      ensures Adjacent(order, tr[b].rf, b)
    {
      assert Meets(order, ReadByRmw(tr[b].rf, b));
    }
  }

  /** An order that satisfies the standard meets the requests. */
  lemma RequestsNeeded(tr: Trace, rel: Rel, asked: seq<Request>, order: seq<nat>)
    requires Coherent(tr, rel, asked) && Axioms(tr, rel, order)
    ensures Satisfies(order, asked)
  {
  }

  // ----- one more action -----

  /** rel' adds only edges into the new action n. */
  ghost predicate Into(rel: Rel, rel': Rel, n: nat) {
    rel <= rel' && forall e :: e in rel' && e !in rel ==> e.0 < n && e.1 == n
  }

  /** Edges into a new action change nothing between older ones. */
  lemma OldReach(rel: Rel, rel': Rel, n: nat, a: nat, b: nat)
    requires Forward(rel, n) && Into(rel, rel', n) && a < n && b < n
    ensures Reach(rel', a, b) <==> Reach(rel, a, b)
  {
    if Reach(rel, a, b) {
      ReachMono(rel, rel', a, b);
    }
    if Reach(rel', a, b) {
      var p :| IsPath(rel', p, a, b);
      OldPath(rel, rel', n, p, a, b);
    }
  }

  lemma {:induction false} OldPath(rel: Rel, rel': Rel, n: nat, p: seq<nat>, a: nat, b: nat)
    requires Forward(rel, n) && Into(rel, rel', n) && a < n && b < n && IsPath(rel', p, a, b)
    ensures Reach(rel, a, b)
    decreases |p|
  {
    if |p| == 1 {
      ReachRefl(rel, a);
    } else {
      var c := p[1];
      assert (p[0], p[1]) in rel';
      if |p| > 2 {
        assert (p[1], p[2]) in rel';
        assert c != n;
      }
      OldPath(rel, rel', n, p[1..], c, b);
      ReachPair(rel, a, c);
      ReachTrans(rel, a, c, b);
    }
  }

  /** What must precede an older action does not depend on the newest one. */
  lemma OldMust(tr: Trace, rel: Rel, act: Action, rel': Rel, a: nat, b: nat)
    requires Forward(rel, |tr|) && Into(rel, rel', |tr|) && b < |tr|
    ensures MustRead(tr + [act], rel', a, b) <==> MustRead(tr, rel, a, b)
    ensures MustWrite(tr + [act], rel', a, b) <==> MustWrite(tr, rel, a, b)
  {
    var tr' := tr + [act];
    if a < b {
      OldReach(rel, rel', |tr|, a, b);
      assert tr'[a] == tr[a] && tr'[b] == tr[b];
      OldRules(tr, act, a, b);
    }
  }

  lemma OldRules(tr: Trace, act: Action, a: nat, b: nat)
    requires a < b < |tr|
    ensures Rule4(tr + [act], a, b) <==> Rule4(tr, a, b)
    ensures Rule5(tr + [act], a, b) <==> Rule5(tr, a, b)
    ensures Rule67(tr + [act], a, b) <==> Rule67(tr, a, b)
  {
    var tr' := tr + [act];
    assert forall i :: 0 <= i < |tr| ==> tr'[i] == tr[i];
  }

  lemma OldAxioms(tr: Trace, rel: Rel, act: Action, rel': Rel, order: seq<nat>)
    requires Forward(rel, |tr|) && Into(rel, rel', |tr|) && ReadsOk(tr) && Axioms(tr + [act], rel', order)
    ensures Axioms(tr, rel, order)
  {
    var tr' := tr + [act];
    forall a: nat, b: nat | MustRead(tr, rel, a, b) && tr[b].IsRead()
      ensures Wr(tr, a) == tr[b].rf || Precedes(order, Wr(tr, a), tr[b].rf)
    {
      OldMust(tr, rel, act, rel', a, b);
      assert Wr(tr', a) == Wr(tr, a) && tr'[b] == tr[b];
    }
    forall a: nat, b: nat | MustWrite(tr, rel, a, b) && tr[b].IsWrite()
      ensures Precedes(order, Wr(tr, a), b)
    {
      OldMust(tr, rel, act, rel', a, b);
      assert Wr(tr', a) == Wr(tr, a) && tr'[b] == tr[b];
    }
    forall b | 0 <= b < |tr| && tr[b].kind.Rmw?
      ensures Adjacent(order, tr[b].rf, b)
    {
      assert tr'[b] == tr[b];
    }
  }

  /** Everything the newest action must follow, it follows by request. */
  ghost predicate NewOrdered(tr: Trace, rel: Rel, asked: seq<Request>)
    requires tr != []
  {
    var n := |tr| - 1;
    && (tr[n].IsRead() ==> forall a: nat :: MustRead(tr, rel, a, n) ==> MoLe(asked, Wr(tr, a), tr[n].rf))
    && (tr[n].IsWrite() ==> forall a: nat :: MustWrite(tr, rel, a, n) ==> MoLe(asked, Wr(tr, a), n))
    && (tr[n].kind.Rmw? ==> ReadByRmw(tr[n].rf, n) in asked)
  }

  lemma StepOrdered(tr: Trace, rel: Rel, asked: seq<Request>, act: Action, rel': Rel, asked': seq<Request>)
    requires Forward(rel, |tr|) && Into(rel, rel', |tr|) && ReadsOk(tr) && Ordered(tr, rel, asked)
    requires asked <= asked' && NewOrdered(tr + [act], rel', asked')
    ensures Ordered(tr + [act], rel', asked')
  {
    var tr', n := tr + [act], |tr|;
    forall a: nat, b: nat | MustRead(tr', rel', a, b) && tr'[b].IsRead()
      ensures MoLe(asked', Wr(tr', a), tr'[b].rf)
    {
      if b < n {
        OldMust(tr, rel, act, rel', a, b);
        assert Wr(tr', a) == Wr(tr, a) && tr'[b] == tr[b];
        MoLeMono(asked, asked', Wr(tr, a), tr[b].rf);
      }
    }
    forall a: nat, b: nat | MustWrite(tr', rel', a, b) && tr'[b].IsWrite()
      ensures MoLe(asked', Wr(tr', a), b)
    {
      if b < n {
        OldMust(tr, rel, act, rel', a, b);
        assert Wr(tr', a) == Wr(tr, a) && tr'[b] == tr[b];
        MoLeMono(asked, asked', Wr(tr, a), b);
      }
    }
    forall b | 0 <= b < |tr'| && tr'[b].kind.Rmw?
      ensures ReadByRmw(tr'[b].rf, b) in asked'
    {
      if b < n {
        assert tr'[b] == tr[b] && ReadByRmw(tr[b].rf, b) in asked;
      }
    }
  }

  /** Every request beyond the first k is demanded by the standard. */
  ghost predicate JustifiedFrom(tr: Trace, rel: Rel, asked: seq<Request>, k: nat) {
    forall i, order {:trigger asked[i], Axioms(tr, rel, order)} ::
      k <= i < |asked| && Axioms(tr, rel, order) ==> Meets(order, asked[i])
  }

  lemma StepJustified(tr: Trace, rel: Rel, asked: seq<Request>, act: Action, rel': Rel, asked': seq<Request>)
    requires Forward(rel, |tr|) && Into(rel, rel', |tr|) && ReadsOk(tr) && Justified(tr, rel, asked)
    requires asked <= asked' && JustifiedFrom(tr + [act], rel', asked', |asked|)
    ensures Justified(tr + [act], rel', asked')
  {
    forall q, order | q in asked' && Axioms(tr + [act], rel', order)
      ensures Meets(order, q)
    {
      OldAxioms(tr, rel, act, rel', order);
      var i :| 0 <= i < |asked'| && asked'[i] == q;
      if i < |asked| {
        assert asked[i] == q;
      }
    }
  }

  /** The step of the machine: an action whose requests are complete and justified. */
  lemma StepCoherent(tr: Trace, rel: Rel, asked: seq<Request>, act: Action, rel': Rel, asked': seq<Request>)
    requires Coherent(tr, rel, asked)
    requires Into(rel, rel', |tr|) && TraceOk(tr + [act], rel') && LogOk(tr + [act], asked')
    requires asked <= asked' && NewOrdered(tr + [act], rel', asked')
    requires JustifiedFrom(tr + [act], rel', asked', |asked|)
    ensures Coherent(tr + [act], rel', asked')
  {
    hide Ordered, Justified, NewOrdered, JustifiedFrom, LogOk;
    StepOrdered(tr, rel, asked, act, rel', asked');
    StepJustified(tr, rel, asked, act, rel', asked');
  }
}
