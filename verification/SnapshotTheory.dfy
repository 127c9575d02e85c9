/** Copy-on-fault snapshots on values: what each step does and why rolling back restores memory. */
module SnapshotTheory {
  /** A saved page: where it belongs and what it held. */
  datatype Saved<Page> = Saved(page: nat, content: Page)

  /**
   * The pages, which of them may be written without a fault, the backing store in use, and for every
   * live snapshot the first backing page that was saved after it.
   */
  datatype Snap<Page> = Snap(mem: seq<Page>, writable: seq<bool>, records: seq<Saved<Page>>, firsts: seq<nat>)

  // ----- the steps -----

  /** A write to a page; a protected page is saved and unprotected first. */
  function Fault<Page>(s: Snap<Page>, p: nat): Snap<Page>
    requires p < |s.mem| == |s.writable|
  {
    s.(records := s.records + [Saved(p, s.mem[p])], writable := s.writable[p := true])
  }

  function Write<Page>(s: Snap<Page>, p: nat, v: Page): (t: Snap<Page>)
    requires p < |s.mem| == |s.writable|
    ensures |t.mem| == |s.mem| && t.mem[p] == v && t.firsts == s.firsts
    ensures forall q :: 0 <= q < |s.mem| && q != p ==> t.mem[q] == s.mem[q]
  {
    var t := if s.writable[p] then s else Fault(s, p);
    t.(mem := t.mem[p := v])
  }

  function Take<Page>(s: Snap<Page>): Snap<Page> {
    s.(writable := seq(|s.writable|, _ => false), firsts := s.firsts + [|s.records|])
  }

  /** Copies every record back, in order. */
  function CopyAll<Page>(mem: seq<Page>, records: seq<Saved<Page>>): (r: seq<Page>)
    requires forall k {:trigger records[k]} :: 0 <= k < |records| ==> records[k].page < |mem|
    ensures |r| == |mem|
    decreases |records|
  {
    if records == [] then mem
    else
      var last := records[|records| - 1];
      CopyAll(mem, records[..|records| - 1])[last.page := last.content]
  }

  /** Copies only the first record of every page back. */
  function CopyFirst<Page>(mem: seq<Page>, records: seq<Saved<Page>>): (r: seq<Page>)
    requires forall k {:trigger records[k]} :: 0 <= k < |records| ==> records[k].page < |mem|
    ensures |r| == |mem|
    decreases |records|
  {
    if records == [] then mem
    else
      var rest, last := records[..|records| - 1], records[|records| - 1];
      var m := CopyFirst(mem, rest);
      if HasPage(rest, last.page) then m else m[last.page := last.content]
  }

  predicate HasPage<Page>(records: seq<Saved<Page>>, p: nat) {
    exists k {:trigger records[k]} :: 0 <= k < |records| && records[k].page == p
  }

  predicate WellFormed<Page>(s: Snap<Page>) {
    && |s.writable| == |s.mem|
    && (forall k {:trigger s.records[k]} :: 0 <= k < |s.records| ==> s.records[k].page < |s.mem|)
    && (forall i, j :: 0 <= i <= j < |s.firsts| ==> s.firsts[i] <= s.firsts[j])
    && (forall i {:trigger s.firsts[i]} :: 0 <= i < |s.firsts| ==> s.firsts[i] <= |s.records|)
    && (s.firsts == [] ==> forall p :: 0 <= p < |s.mem| ==> s.writable[p])
    && (s.firsts != [] ==> SinceLast(s, s.records[s.firsts[|s.firsts| - 1]..]))
  }

  /** Since the last snapshot, exactly the writable pages are saved, each once. */
  predicate SinceLast<Page>(s: Snap<Page>, recent: seq<Saved<Page>>)
    requires |s.writable| == |s.mem|
  {
    && (forall p: nat {:trigger s.writable[p]} :: p < |s.mem| ==> (s.writable[p] <==> HasPage(recent, p)))
    && (forall i, j {:trigger recent[i], recent[j]} :: 0 <= i < j < |recent| ==> recent[i].page != recent[j].page)
  }

  /** Rolling back to the newest snapshot, the tuned way: only memory changes. */
  function RollBackFast<Page>(s: Snap<Page>): Snap<Page>
    requires WellFormed(s) && s.firsts != []
  {
    s.(mem := CopyAll(s.mem, s.records[s.firsts[|s.firsts| - 1]..]))
  }

  /** Rolling back to any live snapshot: later ones are dropped and this one is taken again. */
  function RollBackSlow<Page>(s: Snap<Page>, id: nat): Snap<Page>
    requires WellFormed(s) && id < |s.firsts|
  {
    Take(Snap(CopyFirst(s.mem, s.records[s.firsts[id]..]), seq(|s.writable|, _ => true),
              s.records[..s.firsts[id]], s.firsts[..id]))
  }

  function RollBack<Page>(s: Snap<Page>, tuned: bool, id: nat): Snap<Page>
    requires WellFormed(s) && id < |s.firsts|
  {
    if tuned && |s.firsts| == id + 1 then RollBackFast(s) else RollBackSlow(s, id)
  }

  // ----- the memory that a snapshot stands for -----

  /** What was saved first for a page, or else what the page holds. */
  function Origin<Page>(records: seq<Saved<Page>>, p: nat, now: Page): (c: Page)
    decreases |records|
  {
    if records == [] then now
    else if records[0].page == p then records[0].content
    else Origin(records[1..], p, now)
  }

  function Image<Page>(s: Snap<Page>, id: nat): (m: seq<Page>)
    requires WellFormed(s) && id < |s.firsts|
    ensures |m| == |s.mem|
    ensures forall p :: 0 <= p < |m| ==> m[p] == Origin(s.records[s.firsts[id]..], p, s.mem[p])
  {
    seq(|s.mem|, p requires 0 <= p < |s.mem| => Origin(s.records[s.firsts[id]..], p, s.mem[p]))
  }

  lemma {:induction false} OriginNone<Page>(records: seq<Saved<Page>>, p: nat, now: Page)
    requires !HasPage(records, p)
    ensures Origin(records, p, now) == now
    decreases |records|
  {
    if records != [] {
      NoPageTail(records, p);
      OriginNone(records[1..], p, now);
    }
  }

  lemma NoPageTail<Page>(records: seq<Saved<Page>>, p: nat)
    requires records != [] && !HasPage(records, p)
    ensures records[0].page != p && !HasPage(records[1..], p)
  {
    forall k | 0 <= k < |records[1..]|
      ensures records[1..][k].page != p
    {
      assert records[1..][k] == records[k + 1];
    }
  }

  lemma {:induction false} OriginSaved<Page>(records: seq<Saved<Page>>, p: nat, now: Page, later: Page)
    requires HasPage(records, p)
    ensures Origin(records, p, now) == Origin(records, p, later)
    decreases |records|
  {
    if records[0].page != p {
      PageTail(records, p);
      OriginSaved(records[1..], p, now, later);
    }
  }

  lemma PageTail<Page>(records: seq<Saved<Page>>, p: nat)
    requires records != [] && HasPage(records, p) && records[0].page != p
    ensures HasPage(records[1..], p)
  {
    var k :| 0 <= k < |records| && records[k].page == p;
    assert records[1..][k - 1] == records[k];
  }

  /** Later records count only where earlier ones are silent. */
  lemma {:induction false} OriginConcat<Page>(records: seq<Saved<Page>>, more: seq<Saved<Page>>, p: nat, now: Page)
    ensures Origin(records + more, p, now) == Origin(records, p, Origin(more, p, now))
    decreases |records|
  {
    if records == [] {
      assert records + more == more;
    } else {
      assert (records + more)[1..] == records[1..] + more;
      OriginConcat(records[1..], more, p, now);
    }
  }

  lemma {:induction false} CopyFirstOrigin<Page>(mem: seq<Page>, records: seq<Saved<Page>>, p: nat)
    requires forall k {:trigger records[k]} :: 0 <= k < |records| ==> records[k].page < |mem|
    requires p < |mem|
    ensures CopyFirst(mem, records)[p] == Origin(records, p, mem[p])
    decreases |records|
  {
    if records != [] {
      var rest, last := records[..|records| - 1], records[|records| - 1];
      assert records == rest + [last];
      CopyFirstOrigin(mem, rest, p);
      OriginConcat(rest, [last], p, mem[p]);
      if HasPage(rest, p) {
        OriginSaved(rest, p, mem[p], Origin([last], p, mem[p]));
      } else {
        OriginNone(rest, p, Origin([last], p, mem[p]));
        OriginNone(rest, p, mem[p]);
      }
      assert Origin([last], p, mem[p]) == if last.page == p then last.content else mem[p];
    }
  }

  /** When no page is saved twice, copying all and copying the first of each come to the same. */
  lemma {:induction false} CopyAllIsCopyFirst<Page>(mem: seq<Page>, records: seq<Saved<Page>>)
    requires forall k {:trigger records[k]} :: 0 <= k < |records| ==> records[k].page < |mem|
    requires forall i, j {:trigger records[i], records[j]} ::
               0 <= i < j < |records| ==> records[i].page != records[j].page
    ensures CopyAll(mem, records) == CopyFirst(mem, records)
    decreases |records|
  {
    if records != [] {
      var rest, last := records[..|records| - 1], records[|records| - 1];
      CopyAllIsCopyFirst(mem, rest);
      NotTwice(records);
    }
  }

  lemma NotTwice<Page>(records: seq<Saved<Page>>)
    requires records != []
    requires forall i, j {:trigger records[i], records[j]} ::
               0 <= i < j < |records| ==> records[i].page != records[j].page
    ensures !HasPage(records[..|records| - 1], records[|records| - 1].page)
  {
    var rest := records[..|records| - 1];
    forall k | 0 <= k < |rest|
      ensures rest[k].page != records[|records| - 1].page
    {
      assert rest[k] == records[k];
    }
  }

  // ----- what every step keeps -----

  lemma RecentAfterFault<Page>(s: Snap<Page>, p: nat)
    requires WellFormed(s) && p < |s.mem| && !s.writable[p]
    ensures WellFormed(Fault(s, p))
  {
    var t := Fault(s, p);
    var first := s.firsts[|s.firsts| - 1];
    var recent, recent' := s.records[first..], t.records[first..];
    assert recent' == recent + [Saved(p, s.mem[p])];
    forall q: nat | q < |t.mem|
      ensures t.writable[q] <==> HasPage(recent', q)
    {
      HasPageAppend(recent, Saved(p, s.mem[p]), q);
      assert s.writable[q] <==> HasPage(recent, q);
    }
    assert !HasPage(recent, p);
    forall i, j | 0 <= i < j < |recent'|
      ensures recent'[i].page != recent'[j].page
    {
      assert recent'[i] == recent[i];
    }
  }

  lemma HasPageAppend<Page>(records: seq<Saved<Page>>, last: Saved<Page>, q: nat)
    ensures HasPage(records + [last], q) <==> HasPage(records, q) || last.page == q
  {
    var more := records + [last];
    if HasPage(records, q) {
      var k :| 0 <= k < |records| && records[k].page == q;
      assert more[k] == records[k];
    }
    assert more[|records|] == last;
  }

  lemma WriteWellFormed<Page>(s: Snap<Page>, p: nat, v: Page)
    requires WellFormed(s) && p < |s.mem|
    ensures WellFormed(Write(s, p, v))
  {
    if !s.writable[p] {
      RecentAfterFault(s, p);
    }
  }

  /** A write leaves what every live snapshot stands for. */
  lemma WriteKeepsImages<Page>(s: Snap<Page>, p: nat, v: Page, id: nat)
    requires WellFormed(s) && p < |s.mem| && id < |s.firsts|
    ensures WellFormed(Write(s, p, v)) && Image(Write(s, p, v), id) == Image(s, id)
  {
    WriteWellFormed(s, p, v);
    var t := Write(s, p, v);
    var old_, new_ := s.records[s.firsts[id]..], t.records[s.firsts[id]..];
    forall q: nat | q < |s.mem|
      ensures Origin(new_, q, t.mem[q]) == Origin(old_, q, s.mem[q])
    {
      if s.writable[p] {
        if q == p {
          WritableSaved(s, p, id);
          OriginSaved(old_, p, s.mem[p], v);
        }
      } else {
        assert new_ == old_ + [Saved(p, s.mem[p])];
        OriginConcat(old_, [Saved(p, s.mem[p])], q, t.mem[q]);
        assert Origin([Saved(p, s.mem[p])], q, t.mem[q]) == s.mem[q];
      }
    }
  }

  /** A page that may be written has been saved after every live snapshot. */
  lemma WritableSaved<Page>(s: Snap<Page>, p: nat, id: nat)
    requires WellFormed(s) && p < |s.mem| && s.writable[p] && id < |s.firsts|
    ensures HasPage(s.records[s.firsts[id]..], p)
  {
    var last := s.firsts[|s.firsts| - 1];
    var recent := s.records[last..];
    assert HasPage(recent, p);
    var k :| 0 <= k < |recent| && recent[k].page == p;
    assert s.records[s.firsts[id]..][k + last - s.firsts[id]] == recent[k];
  }

  /** A new snapshot stands for the memory it was taken of, and leaves the others. */
  lemma TakeKeepsImages<Page>(s: Snap<Page>, id: nat)
    requires WellFormed(s)
    ensures WellFormed(Take(s)) && Image(Take(s), |s.firsts|) == s.mem
    ensures id < |s.firsts| ==> Image(Take(s), id) == Image(s, id)
  {
    assert s.records[|s.records|..] == [];
    assert !exists p :: HasPage<Page>([], p);
  }

  lemma FastRestores<Page>(s: Snap<Page>)
    requires WellFormed(s) && s.firsts != []
    ensures RollBackFast(s).mem == Image(s, |s.firsts| - 1)
    ensures RollBackFast(s).mem == RollBackSlow(s, |s.firsts| - 1).mem
  {
    var recent := s.records[s.firsts[|s.firsts| - 1]..];
    CopyAllIsCopyFirst(s.mem, recent);
    forall p | 0 <= p < |s.mem|
      ensures CopyFirst(s.mem, recent)[p] == Image(s, |s.firsts| - 1)[p]
    {
      CopyFirstOrigin(s.mem, recent, p);
    }
  }

  lemma FastKeepsImages<Page>(s: Snap<Page>, id: nat)
    requires WellFormed(s) && id < |s.firsts|
    ensures WellFormed(RollBackFast(s)) && Image(RollBackFast(s), id) == Image(s, id)
  {
    FastRestores(s);
    var last := s.firsts[|s.firsts| - 1];
    var recent, mine := s.records[last..], s.records[s.firsts[id]..];
    assert mine == s.records[s.firsts[id]..last] + recent;
    forall p: nat | p < |s.mem|
      ensures Origin(mine, p, Origin(recent, p, s.mem[p])) == Origin(mine, p, s.mem[p])
    {
      OriginConcat(s.records[s.firsts[id]..last], recent, p, s.mem[p]);
      OriginConcat(s.records[s.firsts[id]..last], recent, p, Origin(recent, p, s.mem[p]));
      OriginIdempotent(recent, p, s.mem[p]);
    }
  }

  lemma OriginIdempotent<Page>(records: seq<Saved<Page>>, p: nat, now: Page)
    ensures Origin(records, p, Origin(records, p, now)) == Origin(records, p, now)
  {
    if HasPage(records, p) {
      OriginSaved(records, p, now, Origin(records, p, now));
    } else {
      OriginNone(records, p, now);
    }
  }

  lemma SlowRestores<Page>(s: Snap<Page>, id: nat)
    requires WellFormed(s) && id < |s.firsts|
    ensures RollBackSlow(s, id).mem == Image(s, id)
  {
    forall p | 0 <= p < |s.mem|
      ensures CopyFirst(s.mem, s.records[s.firsts[id]..])[p] == Image(s, id)[p]
    {
      CopyFirstOrigin(s.mem, s.records[s.firsts[id]..], p);
    }
  }

  lemma SlowKeepsImages<Page>(s: Snap<Page>, id: nat, k: nat)
    requires WellFormed(s) && k <= id < |s.firsts|
    ensures WellFormed(RollBackSlow(s, id)) && Image(RollBackSlow(s, id), k) == Image(s, k)
  {
    SlowRestores(s, id);
    var first := s.firsts[id];
    var t := RollBackSlow(s, id);
    SlowWellFormed(s, id);
    assert t.firsts[k] == s.firsts[k];
    var kept, mine := t.records[s.firsts[k]..], s.records[s.firsts[k]..];
    assert mine == kept + s.records[first..];
    forall p: nat | p < |s.mem|
      ensures Origin(kept, p, t.mem[p]) == Origin(mine, p, s.mem[p])
    {
      OriginConcat(kept, s.records[first..], p, s.mem[p]);
    }
  }

  lemma SlowWellFormed<Page>(s: Snap<Page>, id: nat)
    requires WellFormed(s) && id < |s.firsts|
    ensures WellFormed(RollBackSlow(s, id))
  {
    var t := RollBackSlow(s, id);
    assert t.firsts == s.firsts[..id] + [s.firsts[id]];
    assert t.records[t.firsts[|t.firsts| - 1]..] == [];
  }

  /** Rolling back gives the memory of the snapshot and leaves what it and the older ones stand for. */
  lemma RollBackKeepsImages<Page>(s: Snap<Page>, tuned: bool, id: nat, k: nat)
    requires WellFormed(s) && k <= id < |s.firsts|
    ensures WellFormed(RollBack(s, tuned, id)) && |RollBack(s, tuned, id).firsts| == id + 1
    ensures RollBack(s, tuned, id).mem == Image(s, id) && Image(RollBack(s, tuned, id), k) == Image(s, k)
  {
    if tuned && |s.firsts| == id + 1 {
      FastRestores(s);
      FastKeepsImages(s, k);
    } else {
      SlowRestores(s, id);
      SlowKeepsImages(s, id, k);
    }
  }

  // ----- whole runs -----

  datatype Step<Page> = WritePage(p: nat, v: Page) | TakeSnapshot | RollBackTo(id: nat)

  ghost predicate Allowed<Page>(s: Snap<Page>, step: Step<Page>) {
    match step
    case WritePage(p, _) => p < |s.mem|
    case TakeSnapshot => true
    case RollBackTo(id) => id < |s.firsts|
  }

  ghost function Next<Page>(s: Snap<Page>, tuned: bool, step: Step<Page>): Snap<Page>
    requires WellFormed(s) && Allowed(s, step)
  {
    match step
    case WritePage(p, v) => Write(s, p, v)
    case TakeSnapshot => Take(s)
    case RollBackTo(id) => RollBack(s, tuned, id)
  }

  /** A run starts with no snapshot and nothing protected. */
  ghost predicate IsRun<Page(!new)>(ss: seq<Snap<Page>>, tuned: bool, steps: seq<Step<Page>>) {
    && |ss| == |steps| + 1 && ss[0].records == [] && ss[0].firsts == [] && ss[0].writable == seq(|ss[0].mem|, _ => true)
    && forall i :: 0 <= i < |steps| ==> StepsTo(ss[i], tuned, steps[i], ss[i + 1])
  }

  ghost predicate StepsTo<Page(!new)>(s: Snap<Page>, tuned: bool, step: Step<Page>, s': Snap<Page>) {
    WellFormed(s) ==> Allowed(s, step) && s' == Next(s, tuned, step)
  }

  lemma NextWellFormed<Page(!new)>(s: Snap<Page>, tuned: bool, step: Step<Page>)
    requires WellFormed(s) && Allowed(s, step)
    ensures WellFormed(Next(s, tuned, step))
  {
    hide WellFormed;
    match step
    case WritePage(p, v) => WriteWellFormed(s, p, v);
    case TakeSnapshot => TakeKeepsImages(s, 0);
    case RollBackTo(id) => RollBackKeepsImages(s, tuned, id, id);
  }

  lemma {:induction false} RunWellFormed<Page(!new)>(ss: seq<Snap<Page>>, tuned: bool, steps: seq<Step<Page>>, i: nat)
    requires IsRun(ss, tuned, steps) && i < |ss|
    ensures WellFormed(ss[i])
  {
    if i > 0 {
      RunWellFormed(ss, tuned, steps, i - 1);
      assert StepsTo(ss[i - 1], tuned, steps[i - 1], ss[i - 1 + 1]);
      NextWellFormed(ss[i - 1], tuned, steps[i - 1]);
    }
  }

  /** As long as a snapshot stays live, it stands for the memory it was taken of. */
  lemma {:induction false} RunKeepsImage<Page(!new)>(ss: seq<Snap<Page>>, tuned: bool, steps: seq<Step<Page>>,
                                                     i: nat, j: nat)
    requires IsRun(ss, tuned, steps) && i < j < |ss| && steps[i] == TakeSnapshot
    requires forall k :: i < k <= j ==> |ss[i].firsts| < |ss[k].firsts|
    ensures WellFormed(ss[j]) && Image(ss[j], |ss[i].firsts|) == ss[i].mem
    decreases j
  {
    hide WellFormed, Image;
    var s, id := ss[j - 1], |ss[i].firsts|;
    RunWellFormed(ss, tuned, steps, j - 1);
    RunWellFormed(ss, tuned, steps, j);
    assert StepsTo(s, tuned, steps[j - 1], ss[j - 1 + 1]);
    if i == j - 1 {
      TakeKeepsImages(s, id);
    } else {
      RunKeepsImage(ss, tuned, steps, i, j - 1);
      match steps[j - 1]
      case WritePage(p, v) => WriteKeepsImages(s, p, v, id);
      case TakeSnapshot => TakeKeepsImages(s, id);
      case RollBackTo(to) => RollBackKeepsImages(s, tuned, to, if id <= to then id else to);
    }
  }

  /** Rolling back to a live snapshot, at any later time, gives every page what it held when it was taken. */
  lemma RunRestores<Page(!new)>(ss: seq<Snap<Page>>, tuned: bool, steps: seq<Step<Page>>, i: nat, j: nat)
    requires IsRun(ss, tuned, steps) && i < j < |steps| && steps[i] == TakeSnapshot
             && steps[j] == RollBackTo(|ss[i].firsts|)
    requires forall k :: i < k <= j ==> |ss[i].firsts| < |ss[k].firsts|
    ensures ss[j + 1].mem == ss[i].mem
  {
    hide WellFormed, Image;
    RunKeepsImage(ss, tuned, steps, i, j);
    assert StepsTo(ss[j], tuned, steps[j], ss[j + 1]);
    RollBackKeepsImages(ss[j], tuned, |ss[i].firsts|, |ss[i].firsts|);
  }

  /** Tuned or not, the same steps give the same memory all along. */
  lemma {:induction false} TunedSame<Page(!new)>(ss: seq<Snap<Page>>, us: seq<Snap<Page>>, steps: seq<Step<Page>>,
                                                 j: nat)
    requires IsRun(ss, true, steps) && IsRun(us, false, steps) && ss[0] == us[0] && j < |ss|
    ensures WellFormed(ss[j]) && WellFormed(us[j])
    ensures ss[j].mem == us[j].mem && |ss[j].firsts| == |us[j].firsts|
    ensures forall k {:trigger Image(ss[j], k)} :: 0 <= k < |ss[j].firsts| ==> Image(ss[j], k) == Image(us[j], k)
  {
    hide WellFormed, Image;
    RunWellFormed(ss, true, steps, j);
    RunWellFormed(us, false, steps, j);
    if j > 0 {
      var s, u := ss[j - 1], us[j - 1];
      TunedSame(ss, us, steps, j - 1);
      assert StepsTo(s, true, steps[j - 1], ss[j - 1 + 1]) && StepsTo(u, false, steps[j - 1], us[j - 1 + 1]);
      SameStep(s, u, steps[j - 1]);
    }
  }

  lemma SameStep<Page(!new)>(s: Snap<Page>, u: Snap<Page>, step: Step<Page>)
    requires WellFormed(s) && WellFormed(u) && Allowed(s, step) && Allowed(u, step)
    requires s.mem == u.mem && |s.firsts| == |u.firsts|
    requires forall k {:trigger Image(s, k)} :: 0 <= k < |s.firsts| ==> Image(s, k) == Image(u, k)
    ensures var s', u' := Next(s, true, step), Next(u, false, step);
            && s'.mem == u'.mem && |s'.firsts| == |u'.firsts| && WellFormed(s') && WellFormed(u')
            && forall k {:trigger Image(s', k)} :: 0 <= k < |s'.firsts| ==> Image(s', k) == Image(u', k)
  {
    hide WellFormed, Image;
    NextWellFormed(s, true, step);
    NextWellFormed(u, false, step);
    var s', u' := Next(s, true, step), Next(u, false, step);
    if step.RollBackTo? {
      RollBackKeepsImages(s, true, step.id, step.id);
      RollBackKeepsImages(u, false, step.id, step.id);
    }
    forall k: nat | k < |s'.firsts|
      ensures Image(s', k) == Image(u', k)
    {
      match step
      case WritePage(p, v) =>
        WriteKeepsImages(s, p, v, k);
        WriteKeepsImages(u, p, v, k);
      case TakeSnapshot =>
        TakeKeepsImages(s, k);
        TakeKeepsImages(u, k);
      case RollBackTo(id) =>
        RollBackKeepsImages(s, true, id, k);
        RollBackKeepsImages(u, false, id, k);
    }
  }
}
