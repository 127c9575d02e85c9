/** The page snapshotter: memory, page protection, the backing store and the snapshot records, changed in place. */
module Snapshots {
  import opened SnapshotTheory

  /** The bytes of a page. */
  type Page = seq<nat>

  ghost predicate InMemory(records: seq<Saved<Page>>, size: nat) {
    forall k {:trigger records[k]} :: 0 <= k < |records| ==> records[k].page < size
  }

  class Snapshotter {
    /** Whether rolling back to the newest snapshot takes the short way. */
    const tuned: bool
    const memory: array<Page>
    const writable: array<bool>
    const backingStore: array<Page>
    const backingRecords: array<nat>
    const snapShots: array<nat>
    var lastSnapShot: nat
    var lastBackingPage: nat

    ghost predicate Shape()
      reads this
    {
      && writable.Length == memory.Length && backingStore.Length == backingRecords.Length
      && lastBackingPage <= backingStore.Length && lastSnapShot <= snapShots.Length
      && backingRecords != snapShots && memory != backingStore
    }

    ghost function Records(): (r: seq<Saved<Page>>)
      reads this, backingStore, backingRecords
      requires Shape()
      ensures |r| == lastBackingPage
      ensures forall k :: 0 <= k < lastBackingPage ==> r[k] == Saved(backingRecords[k], backingStore[k])
    {
      var pages, contents := backingRecords[..], backingStore[..];
      seq(lastBackingPage, k requires 0 <= k < |pages| == |contents| => Saved(pages[k], contents[k]))
    }

    ghost function View(): Snap<Page>
      reads this, memory, writable, backingStore, backingRecords, snapShots
      requires Shape()
    {
      Snap(memory[..], writable[..], Records(), snapShots[..lastSnapShot])
    }

    ghost predicate Valid()
      reads this, memory, writable, backingStore, backingRecords, snapShots
    {
      Shape() && WellFormed(View())
    }

    constructor (mem: seq<Page>, backingPages: nat, snapshots: nat, tuned: bool)
      ensures Valid() && View() == Snap(mem, seq(|mem|, _ => true), [], []) && this.tuned == tuned
      ensures fresh(memory) && fresh(writable) && fresh(backingStore) && fresh(backingRecords) && fresh(snapShots)
    {
      this.tuned := tuned;
      memory := new Page[|mem|](i requires 0 <= i < |mem| => mem[i]);
      writable := new bool[|mem|](_ => true);
      backingStore, backingRecords := new Page[backingPages], new nat[backingPages];
      snapShots := new nat[snapshots];
      lastSnapShot, lastBackingPage := 0, 0;
      new;
      assert memory[..] == mem && writable[..] == seq(|mem|, _ => true);
      assert snapShots[..0] == [];
    }

    /** The page fault handler: saves the page and lets it be written; false if no backing page is left. */
    method HandlePf(p: nat) returns (ok: bool)
      requires Valid() && p < memory.Length && !writable[p]
      modifies this`lastBackingPage, backingStore, backingRecords, writable
      ensures ok == (old(lastBackingPage) < backingStore.Length)
      ensures Valid() && View() == if ok then Fault(old(View()), p) else old(View())
    {
      hide WellFormed;
      ghost var was := View();
      if lastBackingPage == backingStore.Length {
        return false;
      }
      backingStore[lastBackingPage] := memory[p];
      backingRecords[lastBackingPage] := p;
      lastBackingPage := lastBackingPage + 1;
      writable[p] := true;
      assert Records() == was.records + [Saved(p, was.mem[p])];
      assert View() == Fault(was, p);
      RecentAfterFault(was, p);
      return true;
    }

    /** A store to a page by the program. */
    method WritePage(p: nat, v: Page) returns (ok: bool)
      requires Valid() && p < memory.Length
      modifies this`lastBackingPage, memory, writable, backingStore, backingRecords
      ensures ok == (old(writable[p]) || old(lastBackingPage) < backingStore.Length)
      ensures Valid() && View() == if ok then Write(old(View()), p, v) else old(View())
      ensures ok ==> memory[p] == v && forall q :: 0 <= q < memory.Length && q != p ==> memory[q] == old(memory[q])
    {
      hide WellFormed;
      ghost var was := View();
      WriteWellFormed(was, p, v);
      if !writable[p] {
        ok := HandlePf(p);
        if !ok {
          return;
        }
      }
      ghost var then_ := View();
      memory[p] := v;
      assert Records() == then_.records;
      assert memory[..] == then_.mem[p := v];
      return true;
    }

    method Protect(w: bool)
      modifies writable
      ensures writable[..] == seq(writable.Length, _ => w)
    {
      for p := 0 to writable.Length
        invariant forall q :: 0 <= q < p ==> writable[q] == w
      {
        writable[p] := w;
      }
    }

    /** Protects every page and starts a new snapshot; none if there is no room. */
    method TakeSnapshot() returns (ok: bool, id: nat)
      requires Shape()
      modifies this`lastSnapShot, writable, snapShots
      ensures ok == (old(lastSnapShot) < snapShots.Length)
      ensures ok ==> id == old(lastSnapShot) && Shape() && View() == Take(old(View()))
      ensures !ok ==> Shape() && View() == old(View()).(writable := seq(writable.Length, _ => false))
    {
      ghost var was := View();
      Protect(false);
      if lastSnapShot == snapShots.Length {
        return false, 0;
      }
      id := lastSnapShot;
      snapShots[id] := lastBackingPage;
      lastSnapShot := lastSnapShot + 1;
      assert snapShots[..lastSnapShot] == was.firsts + [|was.records|];
      assert Records() == was.records;
      return true, id;
    }

    /** Copies every saved page from the given one on back, in order. */
    method RestoreAll(first: nat)
      requires Shape() && first <= lastBackingPage
               && forall k :: 0 <= k < lastBackingPage ==> backingRecords[k] < memory.Length
      modifies memory
      ensures InMemory(Records()[first..], memory.Length) && memory[..] == CopyAll(old(memory[..]), Records()[first..])
    {
      ghost var records := Records();
      assert records[first..first] == [];
      for page := first to lastBackingPage
        invariant Records() == records
        invariant memory[..] == CopyAll(old(memory[..]), records[first..page])
      {
        assert records[first..page + 1] == records[first..page] + [records[page]];
        memory[backingRecords[page]] := backingStore[page];
      }
      assert records[first..lastBackingPage] == records[first..];
    }

    /** Copies the saved pages back, skipping a page that was copied already. */
    method RestoreFirst(first: nat)
      requires Shape() && first <= lastBackingPage
               && forall k :: 0 <= k < lastBackingPage ==> backingRecords[k] < memory.Length
      modifies memory
      ensures InMemory(Records()[first..], memory.Length)
              && memory[..] == CopyFirst(old(memory[..]), Records()[first..])
    {
      hide Records;
      ghost var records := Records();
      var duplicates: set<nat> := {};
      assert records[first..first] == [];
      for page := first to lastBackingPage
        invariant Records() == records
        invariant memory[..] == CopyFirst(old(memory[..]), records[first..page])
        invariant forall p: nat {:trigger p in duplicates} :: p in duplicates <==> HasPage(records[first..page], p)
      {
        assert records[first..page + 1] == records[first..page] + [records[page]];
        forall p: nat
          ensures HasPage(records[first..page + 1], p) <==> HasPage(records[first..page], p) || records[page].page == p
        {
          HasPageAppend(records[first..page], records[page], p);
        }
        if backingRecords[page] !in duplicates {
          duplicates := duplicates + {backingRecords[page]};
          memory[backingRecords[page]] := backingStore[page];
        }
      }
      assert records[first..lastBackingPage] == records[first..];
    }

    /** Gives every page what it held when the snapshot was taken; later snapshots are dropped. */
    method RollBackTo(id: nat)
      requires Valid() && id < lastSnapShot
      modifies this`lastSnapShot, this`lastBackingPage, memory, writable, snapShots
      ensures Valid() && View() == RollBack(old(View()), tuned, id)
    {
      hide WellFormed, CopyAll, CopyFirst, Image;
      ghost var was := View();
      RollBackKeepsImages(was, tuned, id, id);
      FirstFits(was, id);
      var first := snapShots[id];
      if tuned && lastSnapShot == id + 1 {
        RestoreAll(first);
        assert Records() == was.records;
        return;
      }
      Protect(true);
      assert Records() == was.records;
      RestoreFirst(first);
      lastSnapShot, lastBackingPage := id, first;
      assert Records() == was.records[..first];
      assert snapShots[..lastSnapShot] == was.firsts[..id];
      assert View() == Snap(CopyFirst(was.mem, was.records[first..]), seq(|was.writable|, _ => true),
                            was.records[..first], was.firsts[..id]);
      var ok, _ := TakeSnapshot();
    }
  }

  lemma FirstFits(s: Snap<Page>, id: nat)
    requires WellFormed(s) && id < |s.firsts|
    ensures s.firsts[id] <= |s.records| && forall k :: 0 <= k < |s.records| ==> s.records[k].page < |s.mem|
  {
  }
}
