/** Runs of allocations and releases: whatever was handed out and not given back stays apart. */
module HeapRuns {
  import opened HeapTheory
  import opened HeapEffects

  /** A call and what it answered; an allocation that failed changes nothing. */
  datatype Call = Allocated(p: nat, nb: nat) | Failed | Released(p: nat)

  ghost predicate Steps(ch: seq<Tile>, call: Call, ch': seq<Tile>) {
    match call
    case Allocated(p, nb) => Got(ch, ch', p, nb)
    case Failed => ch' == ch
    case Released(p) => UsedLess(ch, ch', p)
  }

  ghost predicate IsHeapRun(cuts: seq<seq<Tile>>, calls: seq<Call>, base: nat, limit: nat) {
    && |cuts| == |calls| + 1 && base % 8 == 0
    && (forall i {:trigger cuts[i]} :: 0 <= i < |cuts| ==> Tiled(cuts[i], base, limit))
    && forall i: nat {:trigger calls[i]} :: i < |calls| ==> Steps(cuts[i], calls[i], cuts[i + 1])
  }

  /** The block that call i handed out has not been given back before call j. */
  ghost predicate Kept(calls: seq<Call>, i: nat, j: nat) {
    && i < j <= |calls| && calls[i].Allocated?
    && forall k {:trigger calls[k]} :: i < k < j ==> calls[k] != Released(calls[i].p)
  }

  /** It is still in use, with room for the request. */
  lemma {:induction false} StaysLive(cuts: seq<seq<Tile>>, calls: seq<Call>, base: nat, limit: nat, i: nat, j: nat)
    returns (s: nat)
    requires IsHeapRun(cuts, calls, base, limit) && Kept(calls, i, j)
    ensures calls[i].nb <= s && IsUsed(cuts[j], calls[i].p, s)
    decreases j
  {
    hide Tiled, IsUsed;
    var p := calls[i].p;
    if j == i + 1 {
      assert Steps(cuts[i], calls[i], cuts[i + 1]);
      s :| calls[i].nb <= s < calls[i].nb + MIN_CHUNK_SIZE && UsedMore(cuts[i], cuts[i + 1], p, s);
      assert IsUsed(cuts[i + 1], p, s);
    } else {
      s := StaysLive(cuts, calls, base, limit, i, j - 1);
      assert Steps(cuts[j - 1], calls[j - 1], cuts[j - 1 + 1]);
      StepKeeps(cuts[j - 1], calls[j - 1], cuts[j], p, s);
    }
  }

  lemma StepKeeps(ch: seq<Tile>, call: Call, ch': seq<Tile>, p: nat, s: nat)
    requires Steps(ch, call, ch') && IsUsed(ch, p, s) && call != Released(p)
    ensures IsUsed(ch', p, s)
  {
    if call.Allocated? {
      var t :| call.nb <= t < call.nb + MIN_CHUNK_SIZE && UsedMore(ch, ch', call.p, t);
    }
  }

  /** Two blocks that were handed out and not given back never overlap, and both are aligned. */
  lemma RunApart(cuts: seq<seq<Tile>>, calls: seq<Call>, base: nat, limit: nat, i: nat, k: nat)
    requires IsHeapRun(cuts, calls, base, limit) && Kept(calls, i, k) && k < |calls| && calls[k].Allocated?
    ensures var a, b := calls[i], calls[k]; b.p % 8 == 0 && (a.p + a.nb <= b.p || b.p + b.nb <= a.p)
  {
    hide IsUsed;
    var s := StaysLive(cuts, calls, base, limit, i, k);
    assert Steps(cuts[k], calls[k], cuts[k + 1]);
    GotApart(cuts[k], cuts[k + 1], base, limit, calls[k].p, calls[k].nb);
  }
}
