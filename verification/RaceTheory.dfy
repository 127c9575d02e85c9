/** Plain accesses to one address: what a race is, and why the last write and the unsubsumed readers suffice. */
module RaceTheory {
  import opened Relations
  import opened GraphTheory
  import opened Clocks
  import opened HappensBefore

  // ----- what a race is -----

  /** A plain access, made when the given number of actions had run; at is its thread's last action by then. */
  datatype Access = Access(when_: nat, at: nat, write: bool)

  /** The actions of an execution with their clocks, and the accesses made between them. */
  datatype Run = Run(tids: seq<nat>, cvs: seq<Clock>, rel: Rel, accesses: seq<Access>) {
    ghost predicate Valid() {
      && Exact(tids, cvs, rel)
      && (forall i {:trigger accesses[i]} :: 0 <= i < |accesses| ==> accesses[i].at < accesses[i].when_ <= |tids|)
      && (forall i, a ::
            0 <= i < |accesses| && accesses[i].at < a < accesses[i].when_ ==> tids[a] != tids[accesses[i].at])
      && (forall i, j :: 0 <= i < j < |accesses| ==> accesses[i].when_ <= accesses[j].when_)
    }

    ghost function At(i: nat): nat
      requires i < |accesses|
    {
      accesses[i].at
    }

    ghost function Tid(i: nat): nat
      requires Valid() && i < |accesses|
    {
      tids[accesses[i].at]
    }

    /** Access i happens before access j: in the thread, or through a later action of i's thread. */
    ghost predicate Before(i: nat, j: nat)
      requires Valid() && i < |accesses| && j < |accesses|
    {
      if Tid(i) == Tid(j) then i < j
      else exists b: nat :: At(i) < b < |tids| && tids[b] == Tid(i) && Reach(rel, b, At(j))
    }

    ghost predicate Racy(i: nat, j: nat)
      requires Valid() && i < |accesses| && j < |accesses|
    {
      i != j && (accesses[i].write || accesses[j].write) && !Before(i, j) && !Before(j, i)
    }
  }

  /** In a thread, later accesses come after later actions. */
  lemma SameThread(run: Run, i: nat, j: nat)
    requires run.Valid() && i < j < |run.accesses| && run.Tid(i) == run.Tid(j)
    ensures run.At(i) <= run.At(j)
  {
  }

  /** Nothing that runs later happens before something that ran earlier. */
  lemma NotBackwards(run: Run, i: nat, j: nat)
    requires run.Valid() && i < j < |run.accesses|
    ensures !run.Before(j, i)
  {
    if run.Tid(i) != run.Tid(j) && run.Before(j, i) {
      var b: nat :| run.At(j) < b < |run.tids| && run.tids[b] == run.Tid(j) && Reach(run.rel, b, run.At(i));
      ForwardReach(run.rel, |run.tids|, b, run.At(i));
    }
  }

  lemma BeforeTrans(run: Run, i: nat, j: nat, k: nat)
    requires run.Valid() && i < j < k < |run.accesses| && run.Before(i, j) && run.Before(j, k)
    ensures run.Before(i, k)
  {
    if run.Tid(i) != run.Tid(k) {
      if run.Tid(i) == run.Tid(j) {
        SameThread(run, i, j);
      } else {
        var b: nat :| run.At(i) < b < |run.tids| && run.tids[b] == run.Tid(i) && Reach(run.rel, b, run.At(j));
        if run.Tid(j) == run.Tid(k) {
          SameThread(run, j, k);
          ReachTo(run, b, run.At(j), run.At(k));
        } else {
          var c: nat :| run.At(j) < c < |run.tids| && run.tids[c] == run.Tid(j) && Reach(run.rel, c, run.At(k));
          ReachTo(run, b, run.At(j), c);
          ReachTrans(run.rel, b, c, run.At(k));
        }
      }
    }
  }

  lemma ReachTo(run: Run, b: nat, x: nat, y: nat)
    requires run.Valid() && Reach(run.rel, b, x) && x <= y < |run.tids| && run.tids[x] == run.tids[y]
    ensures Reach(run.rel, b, y)
  {
    if x < y {
      assert Reach(run.rel, x, y);
      ReachTrans(run.rel, b, x, y);
    }
  }

  // ----- the test on clocks -----

  /** Whether the current thread and clock allow a race with an access of thread tid2 at clock2. */
  predicate MayRace(clock1: Clock, tid1: nat, clock2: nat, tid2: nat) {
    tid1 != tid2 && clock2 != 0 && At(clock1, tid2) <= clock2
  }

  /** A thread's entry in its own clock is the number of its last action. */
  lemma OwnClock(run: Run, a: nat)
    requires run.Valid() && a < |run.tids|
    ensures At(run.cvs[a], run.tids[a]) == a + 1
  {
    ReachRefl(run.rel, a);
    assert Hb(run.tids, run.cvs, a, a);
    var s := At(run.cvs[a], run.tids[a]) - 1;
    assert Genuine(run.tids, run.cvs[a]);
    assert Hb(run.tids, run.cvs, s, a);
    ForwardReach(run.rel, |run.tids|, s, a);
  }

  /** The clock test is exact: it tells whether the earlier access happens before the current one. */
  lemma MayRaceExact(run: Run, i: nat, j: nat)
    requires run.Valid() && i < j < |run.accesses|
    ensures MayRace(run.cvs[run.At(j)], run.Tid(j), run.At(i) + 1, run.Tid(i)) <==> !run.Before(i, j)
  {
    var t, c := run.Tid(i), run.cvs[run.At(j)];
    if run.Tid(i) != run.Tid(j) {
      if At(c, t) > run.At(i) + 1 {
        var b := At(c, t) - 1;
        assert Genuine(run.tids, c);
        assert Hb(run.tids, run.cvs, b, run.At(j));
        assert Reach(run.rel, b, run.At(j));
      }
      if run.Before(i, j) {
        var b: nat :| run.At(i) < b < |run.tids| && run.tids[b] == t && Reach(run.rel, b, run.At(j));
        assert Hb(run.tids, run.cvs, b, run.At(j));
      }
    }
  }

  // ----- the record -----

  datatype Read = Read(thread: nat, clock: nat)

  /** The last write and the readers since then that are not subsumed by later ones; clock 0 means no write. */
  datatype Record = Record(writeThread: nat, writeClock: nat, readers: seq<Read>)

  /** An older access that the current one races with. */
  datatype Report = Report(thread: nat, clock: nat, write: bool)

  const EMPTY_RECORD := Record(0, 0, [])

  /** The readers that the current access does not come after. */
  function Unordered(readers: seq<Read>, cv: Clock, t: nat): (r: seq<Read>) {
    if readers == [] then []
    else
      var q := readers[|readers| - 1];
      Unordered(readers[..|readers| - 1], cv, t) + (if MayRace(cv, t, q.clock, q.thread) then [q] else [])
  }

  function WriteReport(r: Record, cv: Clock, t: nat): set<Report> {
    if MayRace(cv, t, r.writeClock, r.writeThread) then {Report(r.writeThread, r.writeClock, true)} else {}
  }

  function ReadReports(readers: seq<Read>, cv: Clock, t: nat): set<Report> {
    set q | q in readers && MayRace(cv, t, q.clock, q.thread) :: Report(q.thread, q.clock, false)
  }

  function AfterRead(r: Record, cv: Clock, t: nat): Record {
    r.(readers := Unordered(r.readers, cv, t) + [Read(t, At(cv, t))])
  }

  function AfterWrite(cv: Clock, t: nat): Record {
    Record(t, At(cv, t), [])
  }

  // ----- the record along a run -----

  ghost function After(run: Run, k: nat): Record
    requires run.Valid() && k <= |run.accesses|
  {
    if k == 0 then EMPTY_RECORD
    else
      var cv := run.cvs[run.At(k - 1)];
      if run.accesses[k - 1].write then AfterWrite(cv, run.Tid(k - 1))
      else AfterRead(After(run, k - 1), cv, run.Tid(k - 1))
  }

  /** What is reported when access j is made. */
  ghost function Reports(run: Run, j: nat): set<Report>
    requires run.Valid() && j < |run.accesses|
  {
    var r, cv := After(run, j), run.cvs[run.At(j)];
    WriteReport(r, cv, run.Tid(j)) + if run.accesses[j].write then ReadReports(r.readers, cv, run.Tid(j)) else {}
  }

  /** The same record with access numbers: the last write, and the readers since then that no later read subsumes. */
  datatype Kept = Kept(write: Option<nat>, readers: seq<nat>)

  ghost predicate AllBelow(readers: seq<nat>, k: nat) {
    forall x {:trigger readers[x]} :: 0 <= x < |readers| ==> readers[x] < k
  }

  ghost function NotBefore(run: Run, readers: seq<nat>, j: nat): (r: seq<nat>)
    requires run.Valid() && j < |run.accesses| && AllBelow(readers, |run.accesses|)
    ensures AllBelow(r, |run.accesses|) && (AllBelow(readers, j) ==> AllBelow(r, j))
  {
    hide Exact, Run.Before;
    if readers == [] then []
    else
      var i := readers[|readers| - 1];
      NotBefore(run, readers[..|readers| - 1], j) + (if run.Before(i, j) then [] else [i])
  }

  lemma {:induction false} NotBeforeKeeps(run: Run, readers: seq<nat>, j: nat, i: nat)
    requires run.Valid() && j < |run.accesses| && AllBelow(readers, |run.accesses|)
    ensures i in NotBefore(run, readers, j) ==> i in readers
    ensures i in readers ==> i < |run.accesses| && (run.Before(i, j) || i in NotBefore(run, readers, j))
    decreases |readers|
  {
    hide Run.Valid, Run.Before;
    if readers != [] {
      var rest, last := readers[..|readers| - 1], readers[|readers| - 1];
      assert readers == rest + [last];
      NotBeforeKeeps(run, rest, j, i);
    }
  }

  ghost function KeptAfter(run: Run, k: nat): (s: Kept)
    requires run.Valid() && k <= |run.accesses|
    ensures s.write.Some? ==> s.write.value < k && run.accesses[s.write.value].write
    ensures AllBelow(s.readers, k)
  {
    hide Exact;
    if k == 0 then Kept(None, [])
    else if run.accesses[k - 1].write then Kept(Some(k - 1), [])
    else
      var s := KeptAfter(run, k - 1);
      Kept(s.write, NotBefore(run, s.readers, k - 1) + [k - 1])
  }

  ghost function ReadOf(run: Run, i: nat): Read
    requires run.Valid() && i < |run.accesses|
  {
    Read(run.Tid(i), run.At(i) + 1)
  }

  ghost function ReadsOf(run: Run, readers: seq<nat>): (r: seq<Read>)
    requires run.Valid() && AllBelow(readers, |run.accesses|)
    ensures |r| == |readers| && forall x :: 0 <= x < |readers| ==> r[x] == ReadOf(run, readers[x])
  {
    hide Exact;
    seq(|readers|, x requires 0 <= x < |readers| => ReadOf(run, readers[x]))
  }

  ghost predicate Represents(run: Run, r: Record, s: Kept, k: nat)
    requires run.Valid() && k <= |run.accesses|
  {
    && (s.write.Some? ==>
          s.write.value < k && r.writeThread == run.Tid(s.write.value) && r.writeClock == run.At(s.write.value) + 1)
    && (s.write.None? ==> r.writeClock == 0)
    && AllBelow(s.readers, k) && r.readers == ReadsOf(run, s.readers)
  }

  lemma ReadsSplit(run: Run, readers: seq<nat>)
    requires run.Valid() && AllBelow(readers, |run.accesses|) && readers != []
    ensures ReadsOf(run, readers)[..|readers| - 1] == ReadsOf(run, readers[..|readers| - 1])
    ensures ReadsOf(run, readers)[|readers| - 1] == ReadOf(run, readers[|readers| - 1])
  {
    hide Run.Valid;
  }

  lemma ReadsAppend(run: Run, readers: seq<nat>, i: nat)
    requires run.Valid() && AllBelow(readers, |run.accesses|) && i < |run.accesses|
    ensures ReadsOf(run, readers + [i]) == ReadsOf(run, readers) + [ReadOf(run, i)]
  {
    hide Run.Valid;
  }

  lemma {:induction false} FilterRepresents(run: Run, readers: seq<nat>, j: nat)
    requires run.Valid() && j < |run.accesses| && AllBelow(readers, j)
    ensures Unordered(ReadsOf(run, readers), run.cvs[run.At(j)], run.Tid(j)) == ReadsOf(run, NotBefore(run, readers, j))
    decreases |readers|
  {
    hide Exact, Run.Before, MayRace, Run.Valid;
    if readers != [] {
      var rest, i := readers[..|readers| - 1], readers[|readers| - 1];
      FilterRepresents(run, rest, j);
      MayRaceExact(run, i, j);
      ReadsSplit(run, readers);
      ReadsAppend(run, NotBefore(run, rest, j), i);
    }
  }

  /** The clock-based record is the image of the kept accesses, all along the run. */
  lemma {:induction false} AlwaysRepresents(run: Run, k: nat)
    requires run.Valid() && k <= |run.accesses|
    ensures Represents(run, After(run, k), KeptAfter(run, k), k)
  {
    hide Exact, Run.Before, MayRace, Unordered, NotBefore;
    if k > 0 {
      var j := k - 1;
      OwnClock(run, run.At(j));
      if !run.accesses[j].write {
        AlwaysRepresents(run, j);
        FilterRepresents(run, KeptAfter(run, j).readers, j);
      }
    }
  }

  // ----- reports and races -----

  /** Every report is about an earlier conflicting access that is unordered with the current one. */
  lemma ReportsAreRaces(run: Run, j: nat, q: Report)
    requires run.Valid() && j < |run.accesses| && q in Reports(run, j)
    ensures exists i :: 0 <= i < j && q == Report(run.Tid(i), run.At(i) + 1, run.accesses[i].write) && run.Racy(i, j)
  {
    var i := ReportSource(run, j, q);
    MayRaceExact(run, i, j);
    NotBackwards(run, i, j);
    assert run.Racy(i, j);
  }

  lemma ReportSource(run: Run, j: nat, q: Report) returns (i: nat)
    requires run.Valid() && j < |run.accesses| && q in Reports(run, j)
    ensures i < j && q == Report(run.Tid(i), run.At(i) + 1, run.accesses[i].write)
    ensures MayRace(run.cvs[run.At(j)], run.Tid(j), q.clock, q.thread)
            && (run.accesses[i].write || run.accesses[j].write)
  {
    AlwaysRepresents(run, j);
    var r, s, cv := After(run, j), KeptAfter(run, j), run.cvs[run.At(j)];
    if q in WriteReport(r, cv, run.Tid(j)) {
      i := s.write.value;
    } else {
      var p :| p in r.readers && q == Report(p.thread, p.clock, false) && MayRace(cv, run.Tid(j), p.clock, p.thread);
      var x :| 0 <= x < |r.readers| && r.readers[x] == p;
      i := s.readers[x];
      KeptReads(run, j, x);
    }
  }

  lemma {:induction false} KeptReads(run: Run, k: nat, x: nat)
    requires run.Valid() && k <= |run.accesses| && x < |KeptAfter(run, k).readers|
    ensures !run.accesses[KeptAfter(run, k).readers[x]].write
    decreases k
  {
    hide Exact, Run.Before, NotBefore;
    var i := KeptAfter(run, k).readers[x];
    if i != k - 1 {
      var s := KeptAfter(run, k - 1);
      assert i in NotBefore(run, s.readers, k - 1);
      NotBeforeKeeps(run, s.readers, k - 1, i);
      var y :| 0 <= y < |s.readers| && s.readers[y] == i;
      KeptReads(run, k - 1, y);
    }
  }

  /** Whatever is dropped is subsumed: each access is the last write, a kept read, or before one of those. */
  ghost predicate Subsumed(run: Run, i: nat, s: Kept)
    requires run.Valid() && i < |run.accesses|
  {
    || (s.write.Some?
        && (i == s.write.value
            || (s.write.value < |run.accesses| && i < s.write.value && run.Before(i, s.write.value))))
    || (exists x :: x in s.readers && x < |run.accesses| && (i == x || (i < x && run.Before(i, x))))
  }

  /** No access so far raced with an earlier one. */
  ghost predicate QuietUntil(run: Run, k: nat)
    requires run.Valid() && k <= |run.accesses|
  {
    forall i, j {:trigger run.Racy(i, j)} :: 0 <= i < j < k ==> !run.Racy(i, j)
  }

  /** A write that raced with nothing comes after everything before it. */
  lemma {:induction false} QuietSubsumed(run: Run, k: nat, i: nat)
    requires run.Valid() && i < k <= |run.accesses| && QuietUntil(run, k)
    ensures Subsumed(run, i, KeptAfter(run, k))
    decreases k
  {
    hide Exact, Run.Before, NotBefore, Run.Racy, Subsumed;
    var j := k - 1;
    var s, s' := KeptAfter(run, j), KeptAfter(run, k);
    if i < j {
      if run.accesses[j].write {
        assert !run.Racy(i, j);
        WriteSubsumes(run, i, j);
      } else {
        QuietSubsumed(run, j, i);
        SubsumedByRead(run, j, i);
      }
    } else {
      NewestSubsumed(run, j);
    }
  }

  lemma WriteSubsumes(run: Run, i: nat, j: nat)
    requires run.Valid() && i < j < |run.accesses| && run.accesses[j].write && !run.Racy(i, j)
    ensures Subsumed(run, i, KeptAfter(run, j + 1))
  {
    NotBackwards(run, i, j);
  }

  lemma NewestSubsumed(run: Run, j: nat)
    requires run.Valid() && j < |run.accesses|
    ensures Subsumed(run, j, KeptAfter(run, j + 1))
  {
    hide Exact, NotBefore;
    assert !run.accesses[j].write ==> j in KeptAfter(run, j + 1).readers;
  }

  lemma SubsumedByRead(run: Run, j: nat, i: nat)
    requires run.Valid() && i < j < |run.accesses| && !run.accesses[j].write && Subsumed(run, i, KeptAfter(run, j))
    ensures Subsumed(run, i, KeptAfter(run, j + 1))
  {
    var s, s' := KeptAfter(run, j), KeptAfter(run, j + 1);
    if !(s.write.Some? && (i == s.write.value || (i < s.write.value && run.Before(i, s.write.value)))) {
      var x :| x in s.readers && x < |run.accesses| && (i == x || (i < x && run.Before(i, x)));
      assert j in s'.readers;
      if run.Before(x, j) {
        if i < x {
          BeforeTrans(run, i, x, j);
        }
      } else {
        NotBeforeKeeps(run, s.readers, j, x);
        assert x in s'.readers;
      }
    }
  }

  /** While nothing raced before, the access that races with an earlier one is reported, and only that. */
  lemma FirstRaceReported(run: Run, j: nat)
    requires run.Valid() && j < |run.accesses| && QuietUntil(run, j)
    ensures Reports(run, j) != {} <==> exists i :: 0 <= i < j && run.Racy(i, j)
  {
    if Reports(run, j) != {} {
      var q :| q in Reports(run, j);
      ReportsAreRaces(run, j, q);
    }
    if exists i :: 0 <= i < j && run.Racy(i, j) {
      var i: nat :| 0 <= i < j && run.Racy(i, j);
      RaceReported(run, i, j);
    }
  }

  lemma RaceReported(run: Run, i: nat, j: nat)
    requires run.Valid() && i < j < |run.accesses| && QuietUntil(run, j) && run.Racy(i, j)
    ensures Reports(run, j) != {}
  {
    hide Run.Racy;
    var s := KeptAfter(run, j);
    RacyFacts(run, i, j);
    QuietSubsumed(run, j, i);
    if s.write.Some? && (i == s.write.value || (i < s.write.value && run.Before(i, s.write.value))) {
      var w := s.write.value;
      if i < w && run.Before(w, j) {
        BeforeTrans(run, i, w, j);
      }
      WriteReported(run, j);
    } else {
      var x :| x in s.readers && x < |run.accesses| && (i == x || (i < x && run.Before(i, x)));
      if i < x && run.Before(x, j) {
        BeforeTrans(run, i, x, j);
      }
      if run.accesses[j].write {
        ReadReported(run, j, x);
      } else {
        WriteBeforeReads(run, j, i, x);
        WriteReported(run, j);
      }
    }
  }

  lemma RacyFacts(run: Run, i: nat, j: nat)
    requires run.Valid() && i < j < |run.accesses| && run.Racy(i, j)
    ensures !run.Before(i, j) && (run.accesses[i].write || run.accesses[j].write)
  {
  }

  lemma WriteReported(run: Run, j: nat)
    requires run.Valid() && j < |run.accesses|
    requires var w := KeptAfter(run, j).write; w.Some? && !run.Before(w.value, j)
    ensures Reports(run, j) != {}
  {
    AlwaysRepresents(run, j);
    var w, r := KeptAfter(run, j).write.value, After(run, j);
    MayRaceExact(run, w, j);
    assert Report(r.writeThread, r.writeClock, true) in Reports(run, j);
  }

  lemma ReadReported(run: Run, j: nat, x: nat)
    requires run.Valid() && j < |run.accesses| && run.accesses[j].write
    requires x in KeptAfter(run, j).readers && x < |run.accesses| && !run.Before(x, j)
    ensures Reports(run, j) != {}
  {
    AlwaysRepresents(run, j);
    var s, r := KeptAfter(run, j), After(run, j);
    var p :| 0 <= p < |s.readers| && s.readers[p] == x;
    MayRaceExact(run, x, j);
    assert r.readers[p] == ReadOf(run, x) && r.readers[p] in r.readers;
    assert Report(r.readers[p].thread, r.readers[p].clock, false) in Reports(run, j);
  }

  lemma WriteBeforeReads(run: Run, j: nat, i: nat, x: nat)
    requires run.Valid() && i < j < |run.accesses| && x in KeptAfter(run, j).readers && x < |run.accesses|
    requires run.accesses[i].write && QuietUntil(run, j) && !run.Before(i, j)
    ensures var w := KeptAfter(run, j).write; w.Some? && !run.Before(w.value, j)
  {
    var w := LastWrite(run, j, i);
    if i < w {
      NotBackwards(run, i, w);
      assert !run.Racy(i, w);
      if run.Before(w, j) {
        BeforeTrans(run, i, w, j);
      }
    }
  }

  /** The kept write is the last one. */
  lemma {:induction false} LastWrite(run: Run, k: nat, i: nat) returns (w: nat)
    requires run.Valid() && i < k <= |run.accesses| && run.accesses[i].write
    ensures KeptAfter(run, k).write == Some(w) && i <= w < k
    decreases k
  {
    if run.accesses[k - 1].write {
      w := k - 1;
    } else {
      w := LastWrite(run, k - 1, i);
    }
  }

  /** A run has a race exactly when something is reported. */
  lemma RaceFreeIffQuiet(run: Run)
    requires run.Valid()
    ensures QuietUntil(run, |run.accesses|) <==> forall j :: 0 <= j < |run.accesses| ==> Reports(run, j) == {}
  {
    if QuietUntil(run, |run.accesses|) {
      forall j | 0 <= j < |run.accesses|
        ensures Reports(run, j) == {}
      {
        if Reports(run, j) != {} {
          var q :| q in Reports(run, j);
          ReportsAreRaces(run, j, q);
        }
      }
    } else {
      var j := FirstRace(run, |run.accesses|);
      FirstRaceReported(run, j);
    }
  }

  lemma {:induction false} FirstRace(run: Run, k: nat) returns (j: nat)
    requires run.Valid() && k <= |run.accesses| && !QuietUntil(run, k)
    ensures j < k && QuietUntil(run, j) && exists i :: 0 <= i < j && run.Racy(i, j)
  {
    if QuietUntil(run, k - 1) {
      j := k - 1;
    } else {
      j := FirstRace(run, k - 1);
    }
  }
}
