/** The race detector of one address: a packed shadow word that gives way to a full record when it must. */
module DataRaces {
  import opened Clocks
  import opened HappensBefore
  import opened RaceTheory

  // ----- the layout of the word: flag, read thread, read clock, write thread, write clock -----

  const THREADS: nat := 0x100
  const CLOCKS: nat := 0x80_0000
  const WORDS: nat := 0x1_0000_0000_0000_0000
  const MAX_THREAD_ID: nat := THREADS - 2
  const MAX_WRITE_VECTOR: nat := CLOCKS - 2

  predicate IsShortRecord(x: nat) { x % 2 == 1 }
  function RdThreadId(x: nat): nat { x / 0x2 % THREADS }
  function ReadVector(x: nat): nat { x / 0x200 % CLOCKS }
  function WrThreadId(x: nat): nat { x / 0x1_0000_0000 % THREADS }
  function WriteVector(x: nat): nat { x / 0x100_0000_0000 % CLOCKS }

  function EncodeOp(rdThread: nat, rdTime: nat, wrThread: nat, wrTime: nat): nat {
    1 + rdThread * 0x2 + rdTime * 0x200 + wrThread * 0x1_0000_0000 + wrTime * 0x100_0000_0000
  }

  /** What is packed is found again. */
  lemma DecodeEncode(rdThread: nat, rdTime: nat, wrThread: nat, wrTime: nat)
    requires rdThread < THREADS && wrThread < THREADS && rdTime < CLOCKS && wrTime < CLOCKS
    ensures var x := EncodeOp(rdThread, rdTime, wrThread, wrTime);
            && x < WORDS && IsShortRecord(x)
            && RdThreadId(x) == rdThread && ReadVector(x) == rdTime && WrThreadId(x) == wrThread
            && WriteVector(x) == wrTime
  {
    var low := 1 + rdThread * 0x2 + rdTime * 0x200;
    var high := wrThread + wrTime * THREADS;
    var x := EncodeOp(rdThread, rdTime, wrThread, wrTime);
    assert low < 0x1_0000_0000 && x == low + high * 0x1_0000_0000;
    assert x / 0x1_0000_0000 == high && x % 0x1_0000_0000 == low;
    assert high / THREADS == wrTime && high % THREADS == wrThread;
    assert x / 0x100_0000_0000 == high / THREADS;
    LowFields(rdThread, rdTime, high);
  }

  lemma LowFields(rdThread: nat, rdTime: nat, high: nat)
    requires rdThread < THREADS && rdTime < CLOCKS
    ensures var x := 1 + rdThread * 0x2 + rdTime * 0x200 + high * 0x1_0000_0000;
            IsShortRecord(x) && RdThreadId(x) == rdThread && ReadVector(x) == rdTime
  {
    var x := 1 + rdThread * 0x2 + rdTime * 0x200 + high * 0x1_0000_0000;
    assert x / 0x2 == rdThread + THREADS * (rdTime + high * CLOCKS);
    assert x / 0x200 == rdTime + high * CLOCKS;
  }

  /** On 64-bit words, the shifts and masks of the layout are these divisions and remainders. */
  lemma MacrosAreArithmetic(rdThread: bv64, rdTime: bv64, wrThread: bv64, wrTime: bv64, x: bv64)
    requires rdThread < 0x100 && wrThread < 0x100 && rdTime < 0x80_0000 && wrTime < 0x80_0000
    ensures 0x1 | (rdThread << 1) | (rdTime << 9) | (wrThread << 32) | (wrTime << 40)
            == 1 + rdThread * 0x2 + rdTime * 0x200 + wrThread * 0x1_0000_0000 + wrTime * 0x100_0000_0000
    ensures (x & 1 == 1) <==> (x % 2 == 1)
    ensures (x >> 1) & 0xff == x / 0x2 % 0x100 && (x >> 9) & 0x7f_ffff == x / 0x200 % 0x80_0000
    ensures (x >> 32) & 0xff == x / 0x1_0000_0000 % 0x100 && (x >> 40) & 0x7f_ffff == x / 0x100_0000_0000 % 0x80_0000
  {
  }

  /** The record that a word stands for. */
  function Decoded(x: nat): Record {
    Record(WrThreadId(x), WriteVector(x), if ReadVector(x) != 0 then [Read(RdThreadId(x), ReadVector(x))] else [])
  }

  /** A pair of accesses: the older one and the current. */
  datatype Race = Race(older: Report, thread: nat, clock: nat, write: bool)

  function RacesWith(reports: set<Report>, cv: Clock, t: nat, write: bool): (r: set<Race>)
    ensures forall q :: q in reports <==> Race(q, t, At(cv, t), write) in r
  {
    set q | q in reports :: Race(q, t, At(cv, t), write)
  }

  class RaceRecord {
    var thread: seq<nat>
    var readClock: seq<nat>
    var numReads: nat
    var writeThread: nat
    var writeClock: nat

    ghost predicate Valid()
      reads this
    {
      numReads <= |thread| == |readClock|
    }

    ghost function Readers(): (r: seq<Read>)
      reads this
      requires Valid()
      ensures |r| == numReads && forall i :: 0 <= i < numReads ==> r[i] == Read(thread[i], readClock[i])
    {
      var ts, cs := thread, readClock;
      seq(numReads, i requires 0 <= i < |ts| == |cs| => Read(ts[i], cs[i]))
    }

    ghost function Value(): Record
      reads this
      requires Valid()
    {
      Record(writeThread, writeClock, Readers())
    }

    constructor (x: nat)
      ensures Valid() && Value() == Decoded(x)
    {
      writeThread, writeClock := WrThreadId(x), WriteVector(x);
      if ReadVector(x) != 0 {
        numReads, thread, readClock := 1, [RdThreadId(x)], [ReadVector(x)];
      } else {
        numReads, thread, readClock := 0, [], [];
      }
      new;
      assert Readers() == Decoded(x).readers;
    }

    /** Moves the reads that are still needed to the front. */
    method Shorten(t: nat, cv: Clock) returns (copyTo: nat)
      requires Valid()
      modifies this`thread, this`readClock
      ensures Valid() && copyTo <= numReads && copyTo == |Unordered(old(Readers()), cv, t)|
      ensures forall k :: 0 <= k < copyTo ==> Read(thread[k], readClock[k]) == Unordered(old(Readers()), cv, t)[k]
    {
      hide MayRace;
      ghost var readers := Readers();
      copyTo := 0;
      for i := 0 to numReads
        invariant copyTo <= i <= |readers| && Valid()
        invariant forall k :: i <= k < |readers| ==> readers[k] == Read(thread[k], readClock[k])
        invariant |Unordered(readers[..i], cv, t)| == copyTo
        invariant forall k :: 0 <= k < copyTo ==> Read(thread[k], readClock[k]) == Unordered(readers[..i], cv, t)[k]
      {
        UnorderedNext(readers, i, cv, t);
        if MayRace(cv, t, readClock[i], thread[i]) {
          if copyTo != i {
            readClock := readClock[copyTo := readClock[i]];
            thread := thread[copyTo := thread[i]];
          }
          copyTo := copyTo + 1;
        }
      }
      assert readers[..|readers|] == readers;
    }

    /** Puts a read at the given place, as the last one. */
    method PutRead(copyTo: nat, t: nat, clock: nat)
      requires Valid() && copyTo <= numReads
      modifies this`thread, this`readClock, this`numReads
      ensures Valid() && numReads == copyTo + 1 && thread[copyTo] == t && readClock[copyTo] == clock
      ensures forall k :: 0 <= k < copyTo ==> thread[k] == old(thread)[k] && readClock[k] == old(readClock)[k]
    {
      if copyTo >= |thread| {
        thread := thread + [0];
        readClock := readClock + [0];
      }
      thread := thread[copyTo := t];
      readClock := readClock[copyTo := clock];
      numReads := copyTo + 1;
    }
  }

  /** The shadow of one address, and the races reported on it. */
  class ShadowCell {
    var shadow: nat
    /** The expanded form, once there is one. */
    var record: RaceRecord?
    var races: set<Race>

    ghost predicate Valid()
      reads this, record
    {
      if record != null then record.Valid() else shadow < WORDS && (shadow == 0 || IsShortRecord(shadow))
    }

    ghost function Value(): Record
      reads this, record
      requires Valid()
    {
      if record != null then record.Value() else Decoded(shadow)
    }

    constructor ()
      ensures Valid() && Value() == RaceTheory.EMPTY_RECORD && races == {} && record == null
    {
      shadow, record, races := 0, null, {};
    }

    method ReportDataRace(oldThread: nat, oldClock: nat, oldWrite: bool, cv: Clock, t: nat, write: bool)
      modifies this`races
      ensures races == old(races) + RacesWith({Report(oldThread, oldClock, oldWrite)}, cv, t, write)
    {
      races := races + {Race(Report(oldThread, oldClock, oldWrite), t, At(cv, t), write)};
    }

    /** From the word to the full form; it stands for the same record. */
    method ExpandRecord()
      requires Valid() && record == null
      modifies this`record
      ensures Valid() && record != null && fresh(record) && Value() == old(Value())
    {
      record := new RaceRecord(shadow);
    }

    method CheckWriter(r: Record, cv: Clock, t: nat, write: bool)
      modifies this`races
      ensures races == old(races) + RacesWith(WriteReport(r, cv, t), cv, t, write)
    {
      if MayRace(cv, t, r.writeClock, r.writeThread) {
        ReportDataRace(r.writeThread, r.writeClock, true, cv, t, write);
      }
    }

    method FullRaceCheckWrite(t: nat, cv: Clock)
      requires Valid() && record != null
      modifies this`races, record
      ensures Valid() && Value() == AfterWrite(cv, t)
      ensures races == old(races) + RacesWith(WriteReport(old(Value()), cv, t) + ReadReports(old(Value()).readers,
                cv, t), cv, t, true)
    {
      CheckReaders(t, cv);
      ghost var r := record.Value();
      CheckWriter(Record(record.writeThread, record.writeClock, []), cv, t, true);
      RacesJoin(WriteReport(r, cv, t), ReadReports(r.readers, cv, t), cv, t, true);
      record.numReads, record.writeThread, record.writeClock := 0, t, At(cv, t);
      assert record.Readers() == [];
    }

    method CheckReaders(t: nat, cv: Clock)
      requires Valid() && record != null
      modifies this`races
      ensures races == old(races) + RacesWith(ReadReports(record.Readers(), cv, t), cv, t, true)
    {
      ghost var readers := record.Readers();
      for i := 0 to record.numReads
        invariant races == old(races) + RacesWith(ReadReports(readers[..i], cv, t), cv, t, true)
      {
        var readClock, readThread := record.readClock[i], record.thread[i];
        ReadReportsNext(readers, i, cv, t);
        if MayRace(cv, t, readClock, readThread) {
          ReportDataRace(readThread, readClock, false, cv, t, true);
        }
      }
      assert readers[..|readers|] == readers;
    }

    method RaceCheckWrite(t: nat, cv: Clock)
      requires Valid()
      modifies this, record
      ensures record == old(record) || fresh(record)
      ensures Valid() && Value() == AfterWrite(cv, t)
      ensures record == null <==> old(record) == null && t <= MAX_THREAD_ID && At(cv, t) <= MAX_WRITE_VECTOR
      ensures races == old(races) + RacesWith(WriteReport(old(Value()), cv, t) + ReadReports(old(Value()).readers,
                cv, t), cv, t, true)
    {
      if record != null {
        FullRaceCheckWrite(t, cv);
        return;
      }
      var ourClock := At(cv, t);
      if t > MAX_THREAD_ID || ourClock > MAX_WRITE_VECTOR {
        ExpandRecord();
        FullRaceCheckWrite(t, cv);
        return;
      }
      DecodeEncode(0, 0, t, ourClock);
      hide EncodeOp, RdThreadId, ReadVector, WrThreadId, WriteVector, IsShortRecord;
      var readClock, readThread := ReadVector(shadow), RdThreadId(shadow);
      if MayRace(cv, t, readClock, readThread) {
        ReportDataRace(readThread, readClock, false, cv, t, true);
      }
      CheckWriter(Decoded(shadow), cv, t, true);
      shadow := EncodeOp(0, 0, t, ourClock);
    }

    method FullRaceCheckRead(t: nat, cv: Clock)
      requires Valid() && record != null
      modifies this`races, record
      ensures Valid() && Value() == AfterRead(old(Value()), cv, t)
      ensures races == old(races) + RacesWith(WriteReport(old(Value()), cv, t), cv, t, false)
    {
      hide Unordered;
      CheckWriter(Record(record.writeThread, record.writeClock, []), cv, t, false);
      ghost var readers := record.Readers();
      var copyTo := record.Shorten(t, cv);
      record.PutRead(copyTo, t, At(cv, t));
      assert record.Readers() == Unordered(readers, cv, t) + [Read(t, At(cv, t))];
    }

    /** The thread has run an action, so its clock is not 0. */
    method RaceCheckRead(t: nat, cv: Clock)
      requires Valid() && At(cv, t) > 0
      modifies this, record
      ensures record == old(record) || fresh(record)
      ensures Valid() && Value() == AfterRead(old(Value()), cv, t)
      ensures record == null <==>
                && old(record) == null && t <= MAX_THREAD_ID && At(cv, t) <= MAX_WRITE_VECTOR
                && |Value().readers| == 1
      ensures races == old(races) + RacesWith(WriteReport(old(Value()), cv, t), cv, t, false)
    {
      if record != null {
        FullRaceCheckRead(t, cv);
        return;
      }
      var ourClock := At(cv, t);
      if t > MAX_THREAD_ID || ourClock > MAX_WRITE_VECTOR {
        ExpandRecord();
        FullRaceCheckRead(t, cv);
        return;
      }
      var writeClock, writeThread := WriteVector(shadow), WrThreadId(shadow);
      DecodeEncode(t, ourClock, writeThread, writeClock);
      hide EncodeOp, RdThreadId, ReadVector, WrThreadId, WriteVector, IsShortRecord;
      CheckWriter(Decoded(shadow), cv, t, false);
      if MayRace(cv, t, ReadVector(shadow), RdThreadId(shadow)) {
        ExpandRecord();
        FullRaceCheckRead(t, cv);
        return;
      }
      OneRead(Decoded(shadow).readers, cv, t);
      shadow := EncodeOp(t, ourClock, writeThread, writeClock);
    }
  }

  lemma ReadReportsNext(readers: seq<Read>, i: nat, cv: Clock, t: nat)
    requires i < |readers|
    ensures ReadReports(readers[..i + 1], cv, t) == ReadReports(readers[..i], cv, t)
              + if MayRace(cv, t, readers[i].clock,
                           readers[i].thread) then {Report(readers[i].thread, readers[i].clock, false)} else {}
  {
    assert readers[..i + 1] == readers[..i] + [readers[i]];
  }

  lemma UnorderedNext(readers: seq<Read>, i: nat, cv: Clock, t: nat)
    requires i < |readers|
    ensures Unordered(readers[..i + 1], cv, t) ==
            Unordered(readers[..i], cv,
                      t) + (if MayRace(cv, t, readers[i].clock, readers[i].thread) then [readers[i]] else [])
  {
    assert readers[..i + 1][..i] == readers[..i];
  }

  lemma OneRead(readers: seq<Read>, cv: Clock, t: nat)
    requires |readers| <= 1 && forall q :: q in readers ==> !MayRace(cv, t, q.clock, q.thread)
    ensures Unordered(readers, cv, t) == []
  {
    if |readers| == 1 {
      assert readers[0] in readers;
    }
  }

  lemma RacesJoin(p: set<Report>, q: set<Report>, cv: Clock, t: nat, write: bool)
    ensures RacesWith(p + q, cv, t, write) == RacesWith(p, cv, t, write) + RacesWith(q, cv, t, write)
  {
  }

  /** q names an earlier and a current access that race. */
  ghost predicate NamesRace(run: Run, q: Race)
    requires run.Valid()
  {
    exists i, j {:trigger run.Racy(i, j)} :: 0 <= i < j < |run.accesses| && run.Racy(i, j) && q == RaceOf(run, i, j)
  }

  ghost function RaceOf(run: Run, i: nat, j: nat): Race
    requires run.Valid() && i < |run.accesses| && j < |run.accesses|
  {
    Race(Report(run.Tid(i), run.At(i) + 1, run.accesses[i].write), run.Tid(j), run.At(j) + 1, run.accesses[j].write)
  }

  /** Giving every access of a run to the detector reports something exactly when the run has a race. */
  method Detect(run: Run) returns (cell: ShadowCell)
    requires run.Valid()
    ensures cell.races == {} <==> QuietUntil(run, |run.accesses|)
    ensures forall q :: q in cell.races ==> NamesRace(run, q)
  {
    hide Run.Valid, After, Reports, Run.Racy, QuietUntil, NamesRace;
    cell := new ShadowCell();
    assert After(run, 0) == RaceTheory.EMPTY_RECORD by { NothingYet(run); }
    for j := 0 to |run.accesses|
      invariant fresh(cell) && (cell.record != null ==> fresh(cell.record))
      invariant cell.Valid() && cell.Value() == After(run, j)
      invariant cell.races == {} <==> forall k :: 0 <= k < j ==> Reports(run, k) == {}
      invariant forall q :: q in cell.races ==> NamesRace(run, q)
    {
      ghost var was := cell.races;
      OneAccess(run, j, cell);
      EmptyRaces(run, j);
      forall q | q in RacesAt(run, j)
        ensures NamesRace(run, q)
      {
        RaceNamed(run, j, q);
      }
    }
    RaceFreeIffQuiet(run);
  }

  method OneAccess(run: Run, j: nat, cell: ShadowCell)
    requires run.Valid() && j < |run.accesses| && cell.Valid() && cell.Value() == After(run, j)
    modifies cell, cell.record
    ensures cell.record == old(cell.record) || fresh(cell.record)
    ensures cell.Valid() && cell.Value() == After(run, j + 1) && cell.races == old(cell.races) + RacesAt(run, j)
  {
    hide Genuine, Forward, ProgramOrder, AfterWrite, AfterRead, WriteReport, ReadReports;
    var at := run.accesses[j].at;
    OwnClock(run, at);
    if run.accesses[j].write {
      cell.RaceCheckWrite(run.tids[at], run.cvs[at]);
    } else {
      cell.RaceCheckRead(run.tids[at], run.cvs[at]);
    }
  }

  lemma NothingYet(run: Run)
    requires run.Valid()
    ensures After(run, 0) == RaceTheory.EMPTY_RECORD
  {
  }

  lemma RaceNamed(run: Run, j: nat, q: Race)
    requires run.Valid() && j < |run.accesses| && q in RacesAt(run, j)
    ensures NamesRace(run, q)
  {
    hide Reports, Run.Racy;
    OwnClock(run, run.At(j));
    ReportsAreRaces(run, j, q.older);
    var i :| 0 <= i < j && q.older == Report(run.Tid(i), run.At(i) + 1, run.accesses[i].write) && run.Racy(i, j);
    assert q == RaceOf(run, i, j);
  }

  ghost function RacesAt(run: Run, j: nat): set<Race>
    requires run.Valid() && j < |run.accesses|
  {
    RacesWith(Reports(run, j), run.cvs[run.At(j)], run.Tid(j), run.accesses[j].write)
  }

  lemma EmptyRaces(run: Run, j: nat)
    requires run.Valid() && j < |run.accesses|
    ensures RacesAt(run, j) == {} <==> Reports(run, j) == {}
  {
    hide Reports;
    if Reports(run, j) != {} {
      var q :| q in Reports(run, j);
      assert Race(q, run.Tid(j), At(run.cvs[run.At(j)], run.Tid(j)), run.accesses[j].write) in RacesAt(run, j);
    }
  }
}
