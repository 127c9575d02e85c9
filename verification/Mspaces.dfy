/** An mspace on one segment: allocation and release, with tags, bins, designated victim and top changed in place. */
module Mspaces {
  import opened TreeIndices
  import opened TreeBins
  import opened HeapTheory
  import opened HeapSteps
  import opened HeapEffects
  import opened BinTheory

  const CHUNK_OVERHEAD: nat := 8
  const MIN_REQUEST: nat := MIN_CHUNK_SIZE - CHUNK_OVERHEAD - 1
  const MAX_SMALL_REQUEST: nat := MIN_LARGE_SIZE - 1 - 7 - CHUNK_OVERHEAD
  const MAX_REQUEST: nat := WORD - 4 * MIN_CHUNK_SIZE

  function PadRequest(bytes: nat): (nb: nat)
    ensures nb % 8 == 0 && bytes + CHUNK_OVERHEAD <= nb < bytes + CHUNK_OVERHEAD + 8
  {
    (bytes + CHUNK_OVERHEAD + 7) / 8 * 8
  }

  /** The chunk size for a request; the largest word if the request is too big for any. */
  function RequestSize(bytes: nat): (nb: nat)
    ensures nb < WORD && (nb == WORD - 1 <==> bytes >= MAX_REQUEST)
  {
    if bytes < MIN_REQUEST then MIN_CHUNK_SIZE
    else if bytes >= MAX_REQUEST then WORD - 1
    else PadRequest(bytes)
  }

  // ----- which chunk is used -----

  /** A chunk in a bin: free, and neither the victim nor the top. */
  ghost predicate InBins(b: Bins, a: nat, s: nat) {
    InSmall(b, a, s) || InLarge(b, a, s)
  }

  /** A smallest chunk in the bins that is large enough. */
  ghost predicate BestBinned(b: Bins, a: nat, s: nat, nb: nat) {
    InBins(b, a, s) && nb <= s && forall x: nat,
      y: nat {:trigger InBins(b, x, y)} :: InBins(b, x, y) && nb <= y ==> s <= y
  }

  /**
   * When it is used rather than the victim: if the victim is too small; for a small request if it is in a small bin and
   * leaves no rest to speak of, and for a large one if it fits better.
   */
  ghost predicate BinFirst(b: Bins, s: nat, nb: nat) {
    b.dvsize < nb || if nb < MIN_LARGE_SIZE then s <= nb + 8 && s < MIN_LARGE_SIZE else s < b.dvsize
  }

  /** The rest of a chunk that is cut up becomes the victim after a small request, and otherwise the victim stays. */
  ghost predicate RestKept(b: Bins, b': Bins, p: nat, s: nat, nb: nat, toDv: bool) {
    if toDv && s >= nb + MIN_CHUNK_SIZE then b'.dv == p + nb && b'.dvsize == s - nb
    else b'.dv == b.dv && b'.dvsize == b.dvsize
  }

  ghost predicate FromBins(b: Bins, b': Bins, nb: nat, p: nat) {
    exists s: nat :: BestBinned(b, p, s, nb) && BinFirst(b, s, nb) && RestKept(b, b', p, s, nb, nb < MIN_LARGE_SIZE)
  }

  /** No chunk in the bins is used: none is large enough, or the victim is preferred. */
  ghost predicate BinsPassed(b: Bins, nb: nat) {
    forall a: nat, s: nat {:trigger InBins(b, a, s)} :: InBins(b, a, s) && nb <= s ==> !BinFirst(b, s, nb)
  }

  /** What is left of the victim, if that is a chunk. */
  ghost predicate VictimCut(b: Bins, b': Bins, nb: nat) {
    if b.dvsize >= nb + MIN_CHUNK_SIZE then b'.dv == b.dv + nb && b'.dvsize == b.dvsize - nb else b'.dvsize == 0
  }

  /** The choice: a chunk in the bins, the victim, the front of the top, or none, in this order. */
  ghost predicate ChunkChosen(b: Bins, top: nat, topsize: nat, b': Bins, top': nat, nb: nat, p: nat) {
    if !BinsPassed(b, nb) then FromBins(b, b', nb, p) && top' == top
    else if nb <= b.dvsize then p == b.dv && VictimCut(b, b', nb) && top' == top
    else
      && b'.dv == b.dv && b'.dvsize == b.dvsize
      && if nb < topsize then p == top && top' == top + nb else p == 0 && top' == top
  }

  /** After a release the victim is the chunk that the victim has become part of; none if that is the top. */
  ghost predicate VictimMelts(b: Bins, b': Bins, top': nat) {
    if b.dvsize == 0 then b'.dvsize == 0
    else if b'.dvsize == 0 then top' <= b.dv
    else b'.dv <= b.dv && b.dv + b.dvsize <= b'.dv + b'.dvsize
  }

  lemma NotPassed(b: Bins, b': Bins, nb: nat, p: nat)
    requires FromBins(b, b', nb, p)
    ensures !BinsPassed(b, nb)
  {
  }

  lemma SmallestBin(b: Bins, i: nat, nb: nat, p: nat)
    requires BinsOk(b) && i < SMALL_BINS && nb % 8 == 0 && nb <= 8 * i && p in b.small[i]
    requires forall j {:trigger b.small[j]} :: nb / 8 <= j < i ==> b.small[j] == []
    ensures BestBinned(b, p, 8 * i, nb)
  {
    assert 8 * i % 8 == 0 && 8 * i / 8 == i;
    forall x: nat, y: nat | InBins(b, x, y) && nb <= y
      ensures 8 * i <= y
    {
      if InSmall(b, x, y) {
        assert nb / 8 <= y / 8;
      }
    }
  }

  lemma SmallestTree(b: Bins, nb: nat, p: nat)
    requires BinsOk(b) && nb < MIN_LARGE_SIZE && p in b.large
             && forall y {:trigger b.large[y]} :: y in b.large ==> b.large[p] <= b.large[y]
    requires forall j {:trigger b.small[j]} :: nb / 8 <= j < SMALL_BINS ==> b.small[j] == []
    ensures BestBinned(b, p, b.large[p], nb)
  {
    forall x: nat, y: nat | InBins(b, x, y) && nb <= y
      ensures b.large[p] <= y
    {
      assert nb / 8 <= y / 8;
    }
  }

  /** With empty bins for it and the next size, and a victim or nothing else, a small request passes the bins. */
  lemma SmallPassed(b: Bins, i: nat, nb: nat)
    requires BinsOk(b) && nb % 8 == 0 && nb < MIN_LARGE_SIZE && (i < SMALL_BINS ==> nb / 8 + 1 < i)
    requires forall j {:trigger b.small[j]} :: nb / 8 <= j < i && j < SMALL_BINS ==> b.small[j] == []
    requires nb <= b.dvsize || (SMALL_BINS <= i && b.large == map[])
    ensures BinsPassed(b, nb)
  {
    forall a: nat, s: nat | InBins(b, a, s) && nb <= s
      ensures !BinFirst(b, s, nb)
    {
      assert nb / 8 <= s / 8;
    }
  }

  lemma LargeFromTree(b: Bins, b': Bins, nb: nat, p: nat)
    requires BinsOk(b) && MIN_LARGE_SIZE <= nb && TreeBetter(b.large, b.dvsize, nb, p)
             && RestKept(b, b', p, b.large[p], nb, false)
    ensures FromBins(b, b', nb, p)
  {
    assert BestBinned(b, p, b.large[p], nb);
  }

  lemma LargePassed(b: Bins, nb: nat)
    requires BinsOk(b) && MIN_LARGE_SIZE <= nb && VictimBetter(b.large, b.dvsize, nb)
    ensures BinsPassed(b, nb)
  {
  }

  /** No chunk in the trees that is large enough is smaller than a victim that is. */
  ghost predicate VictimBetter(sizes: map<nat, nat>, dvsize: nat, nb: nat) {
    forall y {:trigger sizes[y]} :: y in sizes && nb <= sizes[y] ==> nb <= dvsize <= sizes[y]
  }

  /** p is a smallest chunk in the trees that is large enough, and a victim that is would be larger. */
  ghost predicate TreeBetter(sizes: map<nat, nat>, dvsize: nat, nb: nat, p: nat) {
    && p in sizes && nb <= sizes[p] && (nb <= dvsize ==> sizes[p] < dvsize)
    && forall y {:trigger sizes[y]} :: y in sizes && nb <= sizes[y] ==> sizes[p] <= sizes[y]
  }

  class Mspace {
    const base: nat
    const limit: nat
    var head: Heads
    var foot: Feet
    var smallbins: seq<seq<nat>>
    var smallmap: seq<bool>
    const trees: LargeBins
    var dv: nat
    var dvsize: nat
    var top: nat
    var topsize: nat
    /** The cut of the segment into chunks, the top being the last. */
    ghost var ch: seq<Tile>

    ghost function Kept(): Bins
      reads this`smallbins, this`dv, this`dvsize, trees`mem
    {
      Bins(smallbins, trees.Sizes(), dv, dvsize)
    }

    ghost predicate MapOk()
      reads this`smallbins, this`smallmap
    {
      && |smallmap| == SMALL_BINS == |smallbins|
      && forall i {:trigger smallmap[i]} :: 0 <= i < SMALL_BINS ==> (smallmap[i] <==> smallbins[i] != [])
    }

    ghost predicate Cut()
      reads this`head, this`foot, this`ch, this`top, this`topsize
    {
      && 0 < base && base % 8 == 0 && limit < base + INDEXABLE && WellFormed(head, foot, ch, base, limit)
      && top == ch[|ch| - 1].addr && topsize == ch[|ch| - 1].size
    }

    /** Everything is in order, apart from some free chunks that are in no bin. */
    ghost predicate Core(apart: set<nat>)
      reads this, trees
    {
      Cut() && MapOk() && trees.Valid() && Binned(ch, Kept(), apart) && (dvsize == 0 ==> dv == 0)
    }

    ghost predicate Valid()
      reads this, trees
    {
      Core({})
    }

    constructor (base: nat, limit: nat)
      requires 0 < base < limit < base + INDEXABLE && base % 8 == 0 && limit % 8 == 0
      ensures Valid() && ch == [Tile(base, limit - base, false)] && fresh(trees)
    {
      this.base, this.limit := base, limit;
      head, foot := map[base := Head(limit - base, false, true)], map[];
      smallbins, smallmap := seq(SMALL_BINS, _ => []), seq(SMALL_BINS, _ => false);
      trees := new LargeBins();
      dv, dvsize, top, topsize := 0, 0, base, limit - base;
      ch := [Tile(base, limit - base, false)];
      new;
      assert TagOk(head, foot, ch, 0);
      forall a: nat, s: nat
        ensures !Holds(Kept(), a, s) && !IsFree(ch, a, s)
      {
      }
    }

    // ----- bins -----

    method InsertSmallChunk(p: nat, s: nat)
      requires MapOk() && BinsOk(Kept()) && Absent(Kept(), p) && s % 8 == 0 && IsSmall(s)
      modifies this`smallbins, this`smallmap
      ensures MapOk() && Added(old(Kept()), Kept(), p, s)
    {
      AddSmall(Kept(), p, s);
      var i := s / 8;
      if !smallmap[i] {
        smallmap := smallmap[i := true];
      }
      smallbins := smallbins[i := [p] + smallbins[i]];
    }

    method UnlinkSmallChunk(p: nat, s: nat)
      requires MapOk() && Unique(Kept()) && s % 8 == 0 && IsSmall(s) && p in smallbins[s / 8]
      modifies this`smallbins, this`smallmap
      ensures MapOk() && Removed(old(Kept()), Kept(), p)
    {
      var i := s / 8;
      var k := 0;
      while smallbins[i][k] != p
        invariant 0 <= k < |smallbins[i]| && p in smallbins[i][k..]
        decreases |smallbins[i]| - k
      {
        assert smallbins[i][k..] == [smallbins[i][k]] + smallbins[i][k + 1..];
        k := k + 1;
      }
      RemoveSmall(Kept(), i, k);
      smallbins := smallbins[i := Less(smallbins[i], k)];
      if smallbins[i] == [] {
        smallmap := smallmap[i := false];
      }
    }

    method UnlinkFirstSmallChunk(i: nat) returns (p: nat)
      requires MapOk() && Unique(Kept()) && i < SMALL_BINS && smallmap[i]
      modifies this`smallbins, this`smallmap
      ensures MapOk() && old(smallbins[i]) != [] && p == old(smallbins[i])[0] && Removed(old(Kept()), Kept(), p)
    {
      p := smallbins[i][0];
      RemoveSmall(Kept(), i, 0);
      smallbins := smallbins[i := Less(smallbins[i], 0)];
      if smallbins[i] == [] {
        smallmap := smallmap[i := false];
      }
    }

    method InsertChunk(p: nat, s: nat)
      requires MapOk() && trees.Valid() && BinsOk(Kept()) && Absent(Kept(), p) && p != 0 && s % 8 == 0 && s < INDEXABLE
      modifies this`smallbins, this`smallmap, trees
      ensures MapOk() && trees.Valid() && Added(old(Kept()), Kept(), p, s)
    {
      if IsSmall(s) {
        InsertSmallChunk(p, s);
      } else {
        AbsentFacts(Kept(), p);
        AddLarge(Kept(), p, s);
        trees.InsertLargeChunk(p, s);
      }
    }

    method UnlinkChunk(p: nat, s: nat)
      requires MapOk() && trees.Valid() && Unique(Kept()) && Holds(Kept(), p, s) && !InDv(Kept(), p, s)
      modifies this`smallbins, this`smallmap, trees
      ensures MapOk() && trees.Valid() && Removed(old(Kept()), Kept(), p)
    {
      if IsSmall(s) {
        SmallKept(p, s);
        UnlinkSmallChunk(p, s);
      } else {
        RemoveLarge(Kept(), p);
        trees.UnlinkLargeChunk(p);
      }
    }

    lemma SmallKept(p: nat, s: nat)
      requires trees.Valid() && BinsOk(Kept()) && Holds(Kept(), p, s) && !InDv(Kept(), p, s) && IsSmall(s)
      ensures InSmall(Kept(), p, s)
    {
      trees.HeldLarge();
    }

    /** The rest of a split becomes the designated victim; the old one, which is small, is binned. */
    method ReplaceDv(p: nat, s: nat)
      requires MapOk() && Unique(Kept()) && Absent(Kept(), p) && s > 0 && IsSmall(dvsize) && dvsize % 8 == 0
      modifies this`smallbins, this`smallmap, this`dv, this`dvsize
      ensures MapOk() && Added(old(Kept()), Kept(), p, s) && dv == p && dvsize == s
    {
      ghost var b := Kept();
      if dvsize != 0 {
        RemoveDv(b);
        var d, ds := dv, dvsize;
        assert Holds(b, d, ds) && d != p;
        dv, dvsize := 0, 0;
        assert Absent(Kept(), d) && Absent(Kept(), p);
        InsertSmallChunk(d, ds);
        assert Absent(Kept(), p);
      }
      AddDv(Kept(), p, s);
      dv, dvsize := p, s;
    }

    // ----- using a free chunk -----

    /** Marks a whole free chunk as in use. */
    method UseWhole(p: nat, s: nat)
      requires Core({p}) && IsFree(ch, p, s)
      modifies this`head, this`ch
      ensures Core({}) && UsedMore(old(ch), ch, p, s)
    {
      hide WellFormed, Binned, IsFree, IsUsed, IsLive;
      ghost var i := FreeIndex(ch, p, s);
      WellTiled(head, foot, ch, base, limit);
      TakeWhole(head, foot, ch, base, limit, i);
      ghost var ch' := Splice(ch, i, i + 1, [Tile(p, s, true)]);
      forall a: nat, t: nat
        ensures IsFree(ch', a, t) <==> IsFree(ch, a, t) && a != p
        ensures IsUsed(ch', a, t) <==> IsUsed(ch, a, t) || (a == p && t == s)
      {
        WholeEffect(ch, base, limit, i, a, t);
      }
      NotLive(ch, base, limit, i);
      CutChanges(ch, ch', Kept(), {p}, {});
      head := SetInuseAndPinuse(head, p, s);
      ch := ch';
    }

    /** Marks the front of a free chunk as in use; the rest is free and in no bin yet. */
    method UseFront(p: nat, s: nat, nb: nat) returns (r: nat)
      requires Core({p}) && IsFree(ch, p, s) && nb % 8 == 0 && MIN_CHUNK_SIZE <= nb && nb + MIN_CHUNK_SIZE <= s
      modifies this`head, this`foot, this`ch
      ensures r == p + nb && Core({r}) && IsFree(ch, r, s - nb) && UsedMore(old(ch), ch, p, nb)
    {
      hide WellFormed, Binned, IsFree, IsUsed, IsLive;
      ghost var i := FreeIndex(ch, p, s);
      WellTiled(head, foot, ch, base, limit);
      TakeFront(head, foot, ch, base, limit, i, nb);
      r := p + nb;
      ghost var ch' := Splice(ch, i, i + 1, [Tile(p, nb, true), Tile(r, s - nb, false)]);
      forall a: nat, t: nat
        ensures IsFree(ch', a, t) <==> (IsFree(ch, a, t) && a != p) || (a == r && t == s - nb)
        ensures IsUsed(ch', a, t) <==> IsUsed(ch, a, t) || (a == p && t == nb)
      {
        FrontEffect(ch, base, limit, i, nb, a, t);
      }
      NotLive(ch, base, limit, i);
      InnerNotFree(ch, base, limit, i, r);
      CutChanges(ch, ch', Kept(), {p}, {r});
      head := SetFree(SetInuse(head, p, nb), r, s - nb);
      foot := foot[r + (s - nb) := s - nb];
      ch := ch';
    }

    /** Uses the front of the top. */
    method UseTop(nb: nat) returns (p: nat)
      requires Core({}) && nb % 8 == 0 && MIN_CHUNK_SIZE <= nb < topsize
      modifies this`head, this`ch, this`top, this`topsize
      ensures p == old(top) && top == p + nb && Core({}) && UsedMore(old(ch), ch, p, nb)
    {
      hide WellFormed, Binned, IsFree, IsUsed, IsLive;
      ghost var i := |ch| - 1;
      WellTiled(head, foot, ch, base, limit);
      TakeTop(head, foot, ch, base, limit, nb);
      var rsize := topsize - nb;
      p := top;
      var r := p + nb;
      ghost var ch' := Splice(ch, i, i + 1, [Tile(p, nb, true), Tile(r, rsize, false)]);
      forall a: nat, t: nat
        ensures IsFree(ch', a, t) <==> IsFree(ch, a, t)
        ensures IsUsed(ch', a, t) <==> IsUsed(ch, a, t) || (a == p && t == nb)
      {
        TopEffect(ch, base, limit, nb, a, t);
      }
      NotLive(ch, base, limit, i);
      CutChanges(ch, ch', Kept(), {}, {});
      top, topsize := r, rsize;
      head := SetInuse(SetFree(head, r, rsize), p, nb);
      ch := ch';
    }

    // ----- allocation -----

    /** What is known of a free chunk. */
    lemma FreeFacts(p: nat, s: nat)
      requires Cut() && IsFree(ch, p, s)
      ensures 0 < p && s % 8 == 0 && MIN_CHUNK_SIZE <= s < INDEXABLE
    {
      hide WellFormed;
      WellTiled(head, foot, ch, base, limit);
      var i := FreeIndex(ch, p, s);
      PositiveSize(ch, base, limit, i);
      HeapTheory.Apart(ch, base, limit, i, i);
    }

    /** Takes what is needed of an unbinned free chunk; a rest goes to the bins, or becomes the designated victim. */
    method Carve(p: nat, s: nat, nb: nat, toDv: bool)
      requires Core({p}) && IsFree(ch, p, s) && nb % 8 == 0 && MIN_CHUNK_SIZE <= nb <= s && (toDv ==> IsSmall(dvsize))
      modifies this, trees
      ensures Valid() && Got(old(ch), ch, p, nb)
      ensures RestKept(old(Kept()), Kept(), p, s, nb, toDv) && top == old(top)
    {
      hide Cut, Binned, IsFree, UsedMore, BinsOk;
      FreeFacts(p, s);
      var rsize := s - nb;
      if rsize < MIN_CHUNK_SIZE {
        UseWhole(p, s);
      } else {
        var r := UseFront(p, s, nb);
        FreeFacts(r, rsize);
        CutTiled();
        AbsentApart(ch, Kept(), {r}, r);
        BinnedUnique(ch, base, limit, Kept(), {r});
        ghost var b := Kept();
        if toDv {
          DvSize({r});
          ReplaceDv(r, rsize);
        } else {
          InsertChunk(r, rsize);
        }
        Rebinned(ch, base, limit, b, Kept(), r, rsize);
      }
    }

    lemma CutTiled()
      requires Cut()
      ensures Tiled(ch, base, limit)
    {
    }

    /** The designated victim is a free chunk like any other. */
    lemma DvSize(apart: set<nat>)
      requires Core(apart)
      ensures dvsize % 8 == 0 && (dvsize != 0 ==> IsFree(ch, dv, dvsize) && dv !in apart) && dvsize < INDEXABLE
    {
      hide Cut;
      if dvsize != 0 {
        assert Holds(Kept(), dv, dvsize);
        FreeFacts(dv, dvsize);
      }
    }

    /** Takes the first chunk of a small bin. */
    method FromSmallBin(i: nat, nb: nat) returns (p: nat)
      requires Valid() && i < SMALL_BINS && smallmap[i] && nb % 8 == 0 && MIN_CHUNK_SIZE <= nb <= 8 * i
               && IsSmall(dvsize)
      modifies this, trees
      ensures Valid() && Got(old(ch), ch, p, nb)
      ensures p in old(smallbins[i]) && RestKept(old(Kept()), Kept(), p, 8 * i, nb, true) && top == old(top)
    {
      hide Cut, Binned, IsFree, BinsOk, Holds, Got;
      CutTiled();
      BinnedUnique(ch, base, limit, Kept(), {});
      ghost var b := Kept();
      SmallFree(i);
      p := UnlinkFirstSmallChunk(i);
      Unbinned(ch, b, Kept(), {}, p);
      assert {} + {p} == {p};
      Carve(p, 8 * i, nb, true);
    }

    lemma SmallFree(i: nat)
      requires MapOk() && Binned(ch, Kept(), {}) && i < SMALL_BINS && smallmap[i]
      ensures smallbins[i] != [] && IsFree(ch, smallbins[i][0], 8 * i)
    {
      var p := smallbins[i][0];
      assert 8 * i % 8 == 0 && 8 * i / 8 == i && p in smallbins[i];
      assert Holds(Kept(), p, 8 * i);
    }

    /** Takes a chunk out of the trees and uses it. */
    method FromTree(v: nat, nb: nat, toDv: bool)
      requires Valid() && v in trees.mem && nb % 8 == 0 && MIN_CHUNK_SIZE <= nb <= trees.mem[v].size
               && (toDv ==> IsSmall(dvsize))
      modifies this, trees
      ensures Valid() && Got(old(ch), ch, v, nb)
      ensures RestKept(old(Kept()), Kept(), v, old(trees.mem[v].size), nb, toDv) && top == old(top)
    {
      hide Cut, Binned, IsFree, BinsOk, Got;
      CutTiled();
      BinnedUnique(ch, base, limit, Kept(), {});
      var s := trees.mem[v].size;
      LargeFree(v);
      RemoveLarge(Kept(), v);
      ghost var b := Kept();
      trees.UnlinkLargeChunk(v);
      Unbinned(ch, b, Kept(), {}, v);
      assert {} + {v} == {v};
      Carve(v, s, nb, toDv);
    }

    lemma LargeFree(v: nat)
      requires Binned(ch, Kept(), {}) && v in trees.mem
      ensures v in Kept().large && IsFree(ch, v, trees.mem[v].size)
    {
      assert Holds(Kept(), v, trees.mem[v].size);
    }

    /** Uses the designated victim, or its front. */
    method FromDv(nb: nat) returns (p: nat)
      requires Valid() && nb % 8 == 0 && MIN_CHUNK_SIZE <= nb <= dvsize
      modifies this
      ensures Valid() && Got(old(ch), ch, p, nb)
      ensures p == old(dv) && VictimCut(old(Kept()), Kept(), nb) && top == old(top)
    {
      hide Cut, Binned, IsFree, BinsOk, UsedMore;
      CutTiled();
      BinnedUnique(ch, base, limit, Kept(), {});
      DvSize({});
      FreeFacts(dv, dvsize);
      RemoveDv(Kept());
      ghost var b := Kept();
      var rsize, dvs := dvsize - nb, dvsize;
      p := dv;
      dv, dvsize := 0, 0;
      Unbinned(ch, b, Kept(), {}, p);
      assert {} + {p} == {p};
      if rsize >= MIN_CHUNK_SIZE {
        var r := UseFront(p, dvs, nb);
        CutTiled();
        AbsentApart(ch, Kept(), {r}, r);
        BinnedUnique(ch, base, limit, Kept(), {r});
        AddDv(Kept(), r, rsize);
        ghost var c := Kept();
        dv, dvsize := r, rsize;
        Rebinned(ch, base, limit, c, Kept(), r, rsize);
      } else {
        UseWhole(p, dvs);
      }
    }

    /** The least marked small bin from i on. */
    method NextSmallBin(i: nat) returns (k: nat)
      requires MapOk()
      ensures i <= k && (k < SMALL_BINS ==> smallmap[k]) && forall j :: i <= j < k && j < SMALL_BINS ==> !smallmap[j]
    {
      k := i;
      while k < SMALL_BINS && !smallmap[k]
        invariant i <= k && forall j :: i <= j < k && j < SMALL_BINS ==> !smallmap[j]
      {
        k := k + 1;
      }
    }

    /**
     * A small request: from its bin or the next, else from a larger small bin or the least tree chunk if the victim
     * is too small.
     */
    method MallocSmall(nb: nat) returns (p: nat)
      requires Valid() && nb % 8 == 0 && MIN_CHUNK_SIZE <= nb < MIN_LARGE_SIZE
      modifies this, trees
      ensures Valid()
      ensures if p == 0 then ch == old(ch) && unchanged(this) && unchanged(trees) && (nb <= dvsize || NoRoom(ch, nb))
              else Got(old(ch), ch, p, nb)
      ensures if p == 0 then BinsPassed(Kept(), nb) else FromBins(old(Kept()), Kept(), nb, p) && top == old(top)
    {
      hide Cut, Binned, IsFree, BinsOk, Holds, UsedMore, BestBinned, BinsPassed, NoRoom;
      var i := NextSmallBin(nb / 8);
      assert 8 * (nb / 8) == nb;
      ghost var b := Kept();
      BinsAre();
      if i < SMALL_BINS && i <= nb / 8 + 1 {
        p := ExactSmall(i, nb);
        SmallestBin(b, i, nb, p);
      } else if nb > dvsize {
        if i < SMALL_BINS {
          p := FromSmallBin(i, nb);
          SmallestBin(b, i, nb, p);
        } else {
          var empty := trees.IsEmpty();
          if !empty {
            var v := trees.LeastChunk(nb);
            SmallestTree(b, nb, v);
            FromTree(v, nb, true);
            p := v;
          } else {
            NoRoomSmall(nb);
            SmallPassed(b, i, nb);
            p := 0;
          }
        }
      } else {
        SmallPassed(b, i, nb);
        p := 0;
      }
    }

    lemma BinsAre()
      requires Valid()
      ensures BinsOk(Kept())
              && forall j {:trigger smallbins[j]} :: 0 <= j < SMALL_BINS ==> (smallbins[j] == [] <==> !smallmap[j])
    {
    }

    /** A chunk that fits without a rest to speak of. */
    method ExactSmall(i: nat, nb: nat) returns (p: nat)
      requires Valid() && i < SMALL_BINS && smallmap[i] && nb % 8 == 0 && MIN_CHUNK_SIZE <= nb <= 8 * i <= nb + 8
      modifies this
      ensures Valid() && Got(old(ch), ch, p, nb)
      ensures p in old(smallbins[i]) && dv == old(dv) && dvsize == old(dvsize) && top == old(top)
    {
      hide Cut, Binned, IsFree, BinsOk, Holds, UsedMore;
      CutTiled();
      BinnedUnique(ch, base, limit, Kept(), {});
      ghost var b := Kept();
      SmallFree(i);
      p := UnlinkFirstSmallChunk(i);
      FreeFacts(p, 8 * i);
      Unbinned(ch, b, Kept(), {}, p);
      assert {} + {p} == {p};
      UseWhole(p, 8 * i);
    }

    lemma NoRoomSmall(nb: nat)
      requires Valid() && nb % 8 == 0 && nb < MIN_LARGE_SIZE && dvsize < nb && trees.Sizes() == map[]
      requires forall j :: nb / 8 <= j < SMALL_BINS ==> !smallmap[j]
      ensures NoRoom(ch, nb)
    {
      hide Cut;
      forall a: nat, s: nat | IsFree(ch, a, s)
        ensures s < nb
      {
        assert Holds(Kept(), a, s);
        if InSmall(Kept(), a, s) {
          assert smallbins[s / 8] != [] && smallmap[s / 8];
        }
      }
    }

    /** A large request: the best fit in the trees, unless the victim fits as well. */
    method TmallocLarge(nb: nat) returns (p: nat)
      requires Valid() && nb % 8 == 0 && MIN_LARGE_SIZE <= nb < WORD
      modifies this, trees
      ensures Valid()
      ensures if p == 0 then ch == old(ch) && unchanged(this) && unchanged(trees) && (nb <= dvsize || NoRoom(ch, nb))
              else Got(old(ch), ch, p, nb)
      ensures if p == 0 then VictimBetter(old(trees.Sizes()), old(dvsize), nb)
              else TreeBetter(old(trees.Sizes()), old(dvsize), nb, p)
      ensures if p == 0 then BinsPassed(Kept(), nb) else FromBins(old(Kept()), Kept(), nb, p) && top == old(top)
    {
      hide Cut, Binned, IsFree, BinsOk, Holds, BinsPassed, FromBins;
      ghost var b := Kept();
      BinsAre();
      var v := trees.BestFit(nb);
      DvSize({});
      p := 0;
      if v != 0 {
        var rsize := trees.mem[v].size - nb;
        var dvrest := if dvsize >= nb then dvsize - nb else dvsize - nb + WORD;
        LargeFree(v);
        FreeFacts(v, trees.mem[v].size);
        if rsize < dvrest {
          FromTree(v, nb, false);
          p := v;
          LargeFromTree(b, Kept(), nb, p);
        } else {
          LargePassed(b, nb);
        }
      } else {
        NoRoomLarge(nb);
        LargePassed(b, nb);
      }
    }

    lemma NoRoomLarge(nb: nat)
      requires Valid() && MIN_LARGE_SIZE <= nb && forall y :: y in trees.mem ==> trees.mem[y].size < nb
      ensures nb <= dvsize || NoRoom(ch, nb)
    {
      hide Cut;
      forall a: nat, s: nat | IsFree(ch, a, s) && dvsize < nb
        ensures s < nb
      {
        assert Holds(Kept(), a, s);
      }
    }

    /** Allocates at least the bytes asked for, or fails because no free chunk and not the top is large enough. */
    method Malloc(bytes: nat) returns (mem: nat)
      requires Valid() && bytes < WORD
      modifies this, trees
      ensures Valid()
      ensures mem == 0 ==> ch == old(ch) && NoRoom(ch, RequestSize(bytes)) && topsize <= RequestSize(bytes)
      ensures mem != 0 ==> mem >= 16 && mem % 8 == 0 && Got(old(ch), ch, mem - 16, RequestSize(bytes))
      ensures ChunkChosen(old(Kept()), old(top), old(topsize), Kept(), top, RequestSize(bytes),
                          if mem < 16 then 0 else mem - 16)
      ensures mem != 0 ==> forall a: nat, t: nat {:trigger IsUsed(old(ch), a, t)} ::
                IsUsed(old(ch), a, t) ==> a + t <= mem - 16 || mem - 16 + RequestSize(bytes) <= a
    {
      hide Cut, Binned, BinsOk, Got, NoRoom, IsUsed, ChunkChosen;
      mem := Allocate(bytes);
      if mem != 0 {
        NewApart(old(ch), mem - 16, RequestSize(bytes));
      }
    }

    /** The chunk of an allocation is aligned, and disjoint from all that were in use before. */
    lemma NewApart(was: seq<Tile>, p: nat, nb: nat)
      requires Valid() && Got(was, ch, p, nb)
      ensures p % 8 == 0
      ensures forall a: nat, t: nat {:trigger IsUsed(was, a, t)} :: IsUsed(was, a, t) ==> a + t <= p || p + nb <= a
    {
      hide WellFormed, Binned, IsUsed;
      CutTiled();
      GotApart(was, ch, base, limit, p, nb);
    }

    method Allocate(bytes: nat) returns (mem: nat)
      requires Valid() && bytes < WORD
      modifies this, trees
      ensures Valid()
      ensures mem == 0 ==> ch == old(ch) && NoRoom(ch, RequestSize(bytes)) && topsize <= RequestSize(bytes)
      ensures mem != 0 ==> mem >= 16 && Got(old(ch), ch, mem - 16, RequestSize(bytes))
      ensures ChunkChosen(old(Kept()), old(top), old(topsize), Kept(), top, RequestSize(bytes),
                          if mem < 16 then 0 else mem - 16)
    {
      hide Cut, Binned, BinsOk, Got, NoRoom, BinsPassed, FromBins;
      var nb, p := RequestSize(bytes), 0;
      if bytes <= MAX_SMALL_REQUEST {
        p := MallocSmall(nb);
      } else if bytes >= MAX_REQUEST {
        TooBig(nb);
      } else {
        var empty := trees.IsEmpty();
        if !empty {
          p := TmallocLarge(nb);
        } else {
          AssertEmpty(nb);
        }
      }
      if p != 0 {
        NotPassed(old(Kept()), Kept(), nb, p);
        return p + 16;
      }
      DvSize({});
      if nb <= dvsize {
        p := FromDv(nb);
        return p + 16;
      }
      TopSize();
      if nb < topsize {
        p := UseTop(nb);
        GotExactly(old(ch), ch, p, nb);
        return p + 16;
      }
      return 0;
    }

    lemma TooBig(nb: nat)
      requires Valid() && nb == WORD - 1
      ensures NoRoom(ch, nb) && dvsize < nb && topsize <= nb && BinsPassed(Kept(), nb)
    {
      hide WellFormed, BinsPassed;
      DvSize({});
      TopSize();
      forall a: nat, s: nat | IsFree(ch, a, s)
        ensures s < nb
      {
        FreeFacts(a, s);
      }
      NoRoomPassed(nb);
    }

    lemma NoRoomPassed(nb: nat)
      requires Valid() && NoRoom(ch, nb)
      ensures BinsPassed(Kept(), nb)
    {
      hide Cut, IsFree;
      forall a: nat, s: nat | InBins(Kept(), a, s)
        ensures s < nb
      {
        assert Holds(Kept(), a, s);
      }
    }

    lemma AssertEmpty(nb: nat)
      requires Valid() && MIN_LARGE_SIZE <= nb && trees.Sizes() == map[]
      ensures (nb <= dvsize || NoRoom(ch, nb)) && BinsPassed(Kept(), nb)
    {
      hide WellFormed;
      assert trees.mem.Keys == trees.Sizes().Keys == {};
      NoRoomLarge(nb);
    }

    lemma TopSize()
      requires Cut()
      ensures 0 < top && 0 < topsize < INDEXABLE
    {
      hide WellFormed;
      WellTiled(head, foot, ch, base, limit);
      PositiveSize(ch, base, limit, |ch| - 1);
      HeapTheory.Apart(ch, base, limit, |ch| - 1, |ch| - 1);
    }

    // ----- release -----

    method SetSizeAndPinuseOfFreeChunk(p: nat, s: nat)
      modifies this`head, this`foot
      ensures head == SetFree(old(head), p, s) && foot == old(foot)[p + s := s]
    {
      head := SetFree(head, p, s);
      foot := foot[p + s := s];
    }

    method SetFreeWithPinuse(p: nat, s: nat, n: nat)
      requires n in head
      modifies this`head, this`foot
      ensures head == SetFree(ClearPinuse(old(head), n), p, s) && foot == old(foot)[p + s := s]
    {
      head := ClearPinuse(head, n);
      SetSizeAndPinuseOfFreeChunk(p, s);
    }

    /** What a release sees around the chunk. */
    lemma Surroundings(i: nat)
      requires Cut() && i < |ch| - 1 && ch[i].inuse
      ensures var p, s := ch[i].addr, ch[i].size;
              && p in head && head[p] == Head(s, true, From(ch, i) == i)
              && (From(ch, i) < i ==>
                    p in foot && foot[p] == ch[i - 1].size && ch[i - 1].addr + foot[p] == p
                      && ch[i - 1].size >= MIN_CHUNK_SIZE)
              && p + s in head && head[p + s] == Head(ch[i + 1].size, ch[i + 1].inuse, true) && ch[i + 1].addr == p + s
              && (p + s == top <==> To(ch, i) == |ch|)
              && (To(ch, i) == |ch| ==> !ch[i + 1].inuse && ch[i + 1].size == topsize)
              && 0 < p && (From(ch, i) < i ==> 0 < ch[i - 1].addr) && 0 < ch[i + 1].addr
              && (From(ch, i) < i ==> IsFree(ch, ch[i - 1].addr, ch[i - 1].size))
              && (i + 1 < To(ch, i) < |ch| ==> IsFree(ch, ch[i + 1].addr, ch[i + 1].size))
    {
      hide WellFormed;
      WellTiled(head, foot, ch, base, limit);
      Around(head, foot, ch, base, limit, i);
      Around(head, foot, ch, base, limit, i + 1);
      if i > 0 {
        Around(head, foot, ch, base, limit, i - 1);
      }
      HeapTheory.Apart(ch, base, limit, i, i + 1);
      HeapTheory.Apart(ch, base, limit, i + 1, i);
      if i > 0 {
        HeapTheory.Apart(ch, base, limit, i - 1, i);
      }
      if End(ch[i]) == top {
        OneAt(ch, base, limit, i + 1, |ch| - 1);
      }
    }

    /** Takes a free neighbour that is not the victim out of its bin. */
    method UnlinkNeighbour(p: nat, s: nat, ghost apart: set<nat>)
      requires Core(apart) && IsFree(ch, p, s) && p !in apart && p != dv
      modifies this`smallbins, this`smallmap, trees
      ensures Core(apart + {p})
    {
      hide Cut, BinsOk, IsFree;
      CutTiled();
      BinnedUnique(ch, base, limit, Kept(), apart);
      ghost var b := Kept();
      assert Holds(b, p, s);
      UnlinkChunk(p, s);
      Unbinned(ch, b, Kept(), apart, p);
    }

    /** The stretch is tagged as one free chunk; nothing keeps it yet. */
    ghost predicate Melted(cut: seq<Tile>, i: nat)
      reads this
    {
      && i < |cut| - 1
      && ch == Splice(cut, From(cut, i), To(cut, i), [Tile(cut[From(cut, i)].addr, Stretch(cut, i), false)])
      && Cut() && UsedLess(cut, ch, cut[i].addr)
    }

    /** Ends a release with the chunk as designated victim. */
    method EndAsDv(ghost cut: seq<Tile>, ghost i: nat, p: nat, s: nat, ghost b: Bins)
      requires Melted(cut, i) && MapOk() && trees.Valid() && p == cut[From(cut, i)].addr && s == Stretch(cut, i)
               && s > 0
      requires b == Kept().(dv := 0, dvsize := 0) && Binned(ch, b, {p}) && IsFree(ch, p, s)
      modifies this`dv, this`dvsize
      ensures Valid() && UsedLess(cut, ch, cut[i].addr) && dv == p && dvsize == s
    {
      hide Cut, Binned, IsFree, BinsOk, UsedLess, Stretch;
      CutTiled();
      AbsentApart(ch, b, {p}, p);
      BinnedUnique(ch, base, limit, b, {p});
      AddDv(b, p, s);
      dv, dvsize := p, s;
      Rebinned(ch, base, limit, b, Kept(), p, s);
    }

    /** Ends a release with the chunk in a bin. */
    method EndInBin(ghost cut: seq<Tile>, ghost i: nat, p: nat, s: nat)
      requires Melted(cut, i) && MapOk() && trees.Valid() && Binned(ch, Kept(), {p}) && IsFree(ch, p, s)
               && (dvsize == 0 ==> dv == 0)
      modifies this`smallbins, this`smallmap, trees
      ensures Valid() && UsedLess(cut, ch, cut[i].addr)
    {
      hide Cut, Binned, IsFree, BinsOk, UsedLess, Stretch;
      CutTiled();
      FreeFacts(p, s);
      AbsentApart(ch, Kept(), {p}, p);
      BinnedUnique(ch, base, limit, Kept(), {p});
      ghost var b := Kept();
      InsertChunk(p, s);
      Rebinned(ch, base, limit, b, Kept(), p, s);
    }

    /** Gives a chunk back: it melts with free neighbours and the result is kept as top, victim or in a bin. */
    method Free(mem: nat)
      requires Valid() && (mem != 0 ==> mem >= 16 && IsLive(ch, mem - 16))
      modifies this, trees
      ensures Valid()
      ensures if mem == 0 then ch == old(ch) else UsedLess(old(ch), ch, mem - 16)
      ensures VictimMelts(old(Kept()), Kept(), top)
    {
      if mem != 0 {
        ghost var s :| IsUsed(ch, mem - 16, s);
        ghost var i :| 0 <= i < |ch| && ch[i] == Tile(mem - 16, s, true);
        UsedNotTop(i);
        FreeChunk(mem - 16, i);
      }
    }

    lemma UsedNotTop(i: nat)
      requires Cut() && i < |ch| && ch[i].inuse
      ensures i < |ch| - 1
    {
      WellTiled(head, foot, ch, base, limit);
    }

    method FreeChunk(chunk: nat, ghost i: nat)
      requires Valid() && i < |ch| - 1 && ch[i].inuse && ch[i].addr == chunk
      modifies this, trees
      ensures Valid() && UsedLess(old(ch), ch, chunk) && VictimMelts(old(Kept()), Kept(), top)
    {
      hide Cut, Binned, BinsOk, IsFree, UsedLess, Melted;
      Surroundings(i);
      DvPlace(i);
      var p, psize := chunk, head[chunk].size;
      var next := p + psize;
      ghost var apart: set<nat> := {};
      if !head[p].pinuse {
        var prevsize := foot[p];
        psize := psize + prevsize;
        p := p - prevsize;
        if p != dv {
          UnlinkNeighbour(p, prevsize, {});
          apart := {} + {p};
        } else if head[next].cinuse && head[next].pinuse {
          MeltIntoDv(i, p, psize, next);
          return;
        }
      }
      if !head[next].cinuse {
        if next == top {
          MeltIntoTop(i, p, psize, apart);
        } else if next == dv {
          MeltDvBehind(i, p, psize, apart);
        } else {
          MeltBehind(i, p, psize, next, apart);
        }
      } else {
        MeltAlone(i, p, psize, next, apart);
      }
    }

    /** The victim is not in use, and if it is behind the chunk its size is the one in the tag. */
    lemma DvPlace(i: nat)
      requires Valid() && i < |ch| - 1 && ch[i].inuse
      ensures dv != ch[i].addr && (dv == ch[i + 1].addr && To(ch, i) < |ch| ==> dvsize == ch[i + 1].size)
      ensures From(ch, i) < i && dv == ch[i - 1].addr ==> dvsize == ch[i - 1].size
      ensures dvsize == 0 ==> dv == 0
    {
      hide WellFormed;
      WellTiled(head, foot, ch, base, limit);
      Surroundings(i);
      if dvsize != 0 {
        DvSize({});
        NotFree(ch, base, limit, i, dv, dvsize);
        var k := FreeIndex(ch, dv, dvsize);
        if dv == ch[i + 1].addr {
          OneAt(ch, base, limit, k, i + 1);
        }
        if i > 0 && dv == ch[i - 1].addr {
          OneAt(ch, base, limit, k, i - 1);
        }
      }
    }

    /** The cut after a release that does not reach the top. */
    lemma MeltedCut(i: nat, head': Heads, foot': Feet)
      requires Cut() && i < |ch| - 1 && ch[i].inuse && To(ch, i) < |ch|
      requires var p, s := ch[From(ch, i)].addr, Stretch(ch, i);
               && p + s in head && foot' == foot[p + s := s]
               && (head' == SetFree(ClearPinuse(head, p + s), p, s)
                   || (To(ch, i) > i + 1 && head' == SetFree(head, p, s)))
      ensures var p, s := ch[From(ch, i)].addr, Stretch(ch, i);
              var ch' := Splice(ch, From(ch, i), To(ch, i), [Tile(p, s, false)]);
              && WellFormed(head', foot', ch', base, limit) && s > 0
              && ch' != [] && top == ch'[|ch'| - 1].addr && topsize == ch'[|ch'| - 1].size
    {
      hide WellFormed, Stretch;
      Release(head, foot, ch, base, limit, i);
      StretchEnds(head, foot, ch, base, limit, i);
      var p, s := ch[From(ch, i)].addr, Stretch(ch, i);
      if To(ch, i) > i + 1 {
        assert ClearPinuse(head, p + s) == head;
      }
    }

    /** The victim is in front and nothing free behind: the victim grows. */
    method MeltIntoDv(ghost i: nat, p: nat, psize: nat, next: nat)
      requires Core({}) && i < |ch| - 1 && ch[i].inuse && From(ch, i) < i && To(ch, i) == i + 1
               && dv == p == ch[i - 1].addr && dvsize != 0
      requires psize == Stretch(ch, i) && next == p + psize && next in head
      modifies this`head, this`foot, this`ch, this`dv, this`dvsize
      ensures Valid() && UsedLess(old(ch), ch, old(ch[i].addr))
      ensures dv == p && dvsize == psize
    {
      hide WellFormed, Binned, BinsOk, IsFree, UsedLess, Stretch;
      ghost var cut, b := ch, Kept().(dv := 0, dvsize := 0);
      WellTiled(head, foot, ch, base, limit);
      WithoutDv(ch, base, limit, Kept(), {});
      assert Swallowed(ch, i) == {} + {dv};
      BinsMelted(ch, base, limit, i, b);
      MeltedCut(i, SetFree(ClearPinuse(head, next), p, psize), foot[next := psize]);
      SetFreeWithPinuse(p, psize, next);
      ch := Splice(cut, From(cut, i), To(cut, i), [Tile(p, psize, false)]);
      EndAsDv(cut, i, p, psize, b);
    }

    /** The top is behind: it grows downwards. */
    method MeltIntoTop(ghost i: nat, p: nat, psize: nat, ghost apart: set<nat>)
      requires Core(apart) && i < |ch| - 1 && ch[i].inuse && To(ch, i) == |ch| && p == ch[From(ch, i)].addr
      requires psize + topsize == Stretch(ch, i)
      requires apart == if From(ch, i) < i && p != dv then {p} else {}
      requires dv == p ==> dvsize != 0 && From(ch, i) < i
      modifies this`head, this`ch, this`top, this`topsize, this`dv, this`dvsize
      ensures Valid() && UsedLess(old(ch), ch, old(ch[i].addr))
      ensures if old(dv) == p then dvsize == 0 && top == p else dv == old(dv) && dvsize == old(dvsize)
    {
      hide WellFormed, Binned, BinsOk, IsFree, UsedLess, Stretch, Tiled, MapOk, To, Spaced;
      ghost var cut := ch;
      WellTiled(head, foot, ch, base, limit);
      ReleaseToTop(head, foot, ch, base, limit, i);
      topsize := topsize + psize;
      top := p;
      head := SetFree(head, p, topsize);
      if p == dv {
        WithoutDv(ch, base, limit, Kept(), {});
        dv, dvsize := 0, 0;
      }
      assert Swallowed(cut, i) == (if From(cut, i) < i then {p} else {}) && {} + {p} == {p};
      BinsMelted(cut, base, limit, i, Kept());
      ch := Splice(cut, From(cut, i), To(cut, i), [Tile(p, topsize, false)]);
    }

    /** The victim is behind: it grows downwards. */
    method MeltDvBehind(ghost i: nat, p: nat, psize: nat, ghost apart: set<nat>)
      requires Core(apart) && i < |ch| - 1 && ch[i].inuse && i + 1 < To(ch, i) < |ch| && p == ch[From(ch, i)].addr
      requires dv == ch[i + 1].addr && dvsize != 0 && psize + dvsize == Stretch(ch, i)
      requires apart == if From(ch, i) < i then {p} else {}
      modifies this`head, this`foot, this`ch, this`dv, this`dvsize
      ensures Valid() && UsedLess(old(ch), ch, old(ch[i].addr))
      ensures dv == p && dvsize == psize + old(dvsize)
    {
      hide WellFormed, Binned, BinsOk, IsFree, UsedLess, Stretch, Splice, Spaced, Tiled;
      ghost var cut, b := ch, Kept().(dv := 0, dvsize := 0);
      WellTiled(head, foot, ch, base, limit);
      StretchEnds(head, foot, ch, base, limit, i);
      WithoutDv(ch, base, limit, Kept(), apart);
      assert Swallowed(ch, i) == apart + {dv};
      BinsMelted(ch, base, limit, i, b);
      var dsize := dvsize + psize;
      MeltedCut(i, SetFree(head, p, dsize), foot[p + dsize := dsize]);
      SetSizeAndPinuseOfFreeChunk(p, dsize);
      ch := Splice(cut, From(cut, i), To(cut, i), [Tile(p, dsize, false)]);
      EndAsDv(cut, i, p, dsize, b);
    }

    /** Another free chunk is behind. */
    method MeltBehind(ghost i: nat, p: nat, psize: nat, next: nat, ghost apart: set<nat>)
      requires Core(apart) && i < |ch| - 1 && ch[i].inuse && i + 1 < To(ch, i) < |ch| && p == ch[From(ch, i)].addr
      requires next == ch[i + 1].addr && next != dv && next in head && head[next].size == ch[i + 1].size
      requires psize + ch[i + 1].size == Stretch(ch, i) && IsFree(ch, next, ch[i + 1].size)
      requires apart == if From(ch, i) < i && p != dv then {p} else {}
      requires dv == p ==> dvsize != 0 && From(ch, i) < i
      modifies this, trees
      ensures Valid() && UsedLess(old(ch), ch, old(ch[i].addr))
      ensures dv == old(dv) && dvsize == if dv == p then psize + old(ch[i + 1].size) else old(dvsize)
    {
      hide WellFormed, Binned, BinsOk, IsFree, UsedLess, Stretch;
      Neighbours(i);
      var nsize := head[next].size;
      UnlinkNeighbour(next, nsize, apart);
      if p == dv {
        BehindDv(i, p, psize + nsize, next, apart + {next});
      } else {
        BehindBin(i, p, psize + nsize, next, apart + {next});
      }
    }

    method BehindDv(ghost i: nat, p: nat, size: nat, next: nat, ghost apart: set<nat>)
      requires Core(apart) && i < |ch| - 1 && ch[i].inuse && i + 1 < To(ch, i) < |ch| && p == ch[From(ch, i)].addr
      requires next == ch[i + 1].addr && size == Stretch(ch, i) && apart == {next} && dv == p && dvsize != 0
               && From(ch, i) < i
      modifies this`head, this`foot, this`ch, this`dv, this`dvsize
      ensures Valid() && UsedLess(old(ch), ch, old(ch[i].addr))
      ensures dv == p && dvsize == size
    {
      hide WellFormed, Binned, BinsOk, IsFree, UsedLess, Stretch;
      ghost var cut, b := ch, Kept().(dv := 0, dvsize := 0);
      WellTiled(head, foot, ch, base, limit);
      StretchEnds(head, foot, ch, base, limit, i);
      WithoutDv(ch, base, limit, Kept(), apart);
      assert Swallowed(ch, i) == apart + {p};
      BinsMelted(ch, base, limit, i, b);
      MeltedCut(i, SetFree(head, p, size), foot[p + size := size]);
      SetSizeAndPinuseOfFreeChunk(p, size);
      ch := Splice(cut, From(cut, i), To(cut, i), [Tile(p, size, false)]);
      EndAsDv(cut, i, p, size, b);
    }

    method BehindBin(ghost i: nat, p: nat, size: nat, next: nat, ghost apart: set<nat>)
      requires Core(apart) && i < |ch| - 1 && ch[i].inuse && i + 1 < To(ch, i) < |ch| && p == ch[From(ch, i)].addr
      requires next == ch[i + 1].addr && size == Stretch(ch, i)
               && apart == (if From(ch, i) < i then {p} else {}) + {next}
      modifies this, trees
      ensures Valid() && UsedLess(old(ch), ch, old(ch[i].addr))
      ensures dv == old(dv) && dvsize == old(dvsize)
    {
      hide WellFormed, Binned, BinsOk, IsFree, UsedLess, Stretch, Splice;
      ghost var cut := ch;
      WellTiled(head, foot, ch, base, limit);
      StretchEnds(head, foot, ch, base, limit, i);
      assert Swallowed(ch, i) == apart;
      BinsMelted(ch, base, limit, i, Kept());
      MeltedCut(i, SetFree(head, p, size), foot[p + size := size]);
      SetSizeAndPinuseOfFreeChunk(p, size);
      ch := Splice(cut, From(cut, i), To(cut, i), [Tile(p, size, false)]);
      EndInBin(cut, i, p, size);
    }

    /** The chunks on both sides are different. */
    lemma Neighbours(i: nat)
      requires Cut() && i < |ch| - 1
      ensures From(ch, i) < i ==> ch[i - 1].addr != ch[i + 1].addr
      ensures ch[From(ch, i)].addr != ch[i + 1].addr
    {
      hide WellFormed;
      WellTiled(head, foot, ch, base, limit);
      if ch[From(ch, i)].addr == ch[i + 1].addr {
        OneAt(ch, base, limit, From(ch, i), i + 1);
      }
    }

    /** Nothing free behind. */
    method MeltAlone(ghost i: nat, p: nat, psize: nat, next: nat, ghost apart: set<nat>)
      requires Core(apart) && i < |ch| - 1 && ch[i].inuse && To(ch, i) == i + 1 && p == ch[From(ch, i)].addr
      requires psize == Stretch(ch, i) && next == p + psize && next in head
      requires apart == if From(ch, i) < i then {p} else {}
      modifies this, trees
      ensures Valid() && UsedLess(old(ch), ch, old(ch[i].addr))
      ensures dv == old(dv) && dvsize == old(dvsize)
    {
      hide WellFormed, Binned, BinsOk, IsFree, UsedLess, Stretch;
      ghost var cut := ch;
      WellTiled(head, foot, ch, base, limit);
      assert Swallowed(ch, i) == apart;
      BinsMelted(ch, base, limit, i, Kept());
      MeltedCut(i, SetFree(ClearPinuse(head, next), p, psize), foot[next := psize]);
      SetFreeWithPinuse(p, psize, next);
      ch := Splice(cut, From(cut, i), To(cut, i), [Tile(p, psize, false)]);
      EndInBin(cut, i, p, psize);
    }

    // ----- what the invariant says to callers -----

    /** Live allocations lie in the segment and never overlap. */
    lemma LiveApart(a: nat, s: nat, b: nat, t: nat)
      requires Valid() && IsUsed(ch, a, s) && IsUsed(ch, b, t) && (a, s) != (b, t)
      ensures base <= a && a + s <= limit && (a + s <= b || b + t <= a)
    {
      hide WellFormed;
      WellTiled(head, foot, ch, base, limit);
      var i: nat :| i < |ch| && ch[i] == Tile(a, s, true);
      var j: nat :| j < |ch| && ch[j] == Tile(b, t, true);
      HeapTheory.Apart(ch, base, limit, i, j);
    }

    /**
     * A free chunk below the top is the victim, or in the small bin of its size, or in the trees: in one place only.
     */
    lemma OnePlace(a: nat, s: nat)
      requires Valid() && IsFree(ch, a, s)
      ensures (InDv(Kept(), a, s) && !InSmall(Kept(), a, s) && !InLarge(Kept(), a, s))
           || (!InDv(Kept(), a, s) && InSmall(Kept(), a, s) && IsSmall(s) && !InLarge(Kept(), a, s))
           || (!InDv(Kept(), a, s) && !InSmall(Kept(), a, s) && InLarge(Kept(), a, s) && !IsSmall(s))
    {
      hide WellFormed;
      assert Holds(Kept(), a, s);
      trees.HeldLarge();
    }

    /** The neighbours of a free chunk are in use, and the chunks fill the segment. */
    lemma NoTwoFree(i: nat)
      requires Valid() && i < |ch| - 1
      ensures (ch[i].inuse || ch[i + 1].inuse) && ch[i + 1].addr == End(ch[i])
      ensures ch[0].addr == base && End(ch[|ch| - 1]) == limit
    {
      hide WellFormed;
      Around(head, foot, ch, base, limit, i);
      WellTiled(head, foot, ch, base, limit);
    }
  }

  /** What is allocated holds the request and its tag. */
  lemma RequestCovered(bytes: nat)
    requires bytes < MAX_REQUEST
    ensures RequestSize(bytes) % 8 == 0 && RequestSize(bytes) >= MIN_CHUNK_SIZE
            && RequestSize(bytes) >= bytes + CHUNK_OVERHEAD
  {
  }

  /** The bins without their victim. */
  lemma WithoutDv(ch: seq<Tile>, base: nat, limit: nat, b: Bins, apart: set<nat>)
    requires Tiled(ch, base, limit) && Binned(ch, b, apart) && b.dvsize != 0
    ensures Binned(ch, b.(dv := 0, dvsize := 0), apart + {b.dv})
  {
    hide Tiled, BinsOk, Holds, IsFree;
    BinnedUnique(ch, base, limit, b, apart);
    RemoveDv(b);
    Unbinned(ch, b, b.(dv := 0, dvsize := 0), apart, b.dv);
  }

  /** The bins once the neighbours are out of them and the stretch is one free chunk. */
  lemma BinsMelted(ch: seq<Tile>, base: nat, limit: nat, i: nat, b: Bins)
    requires Tiled(ch, base, limit) && i < |ch| - 1 && ch[i].inuse && !ch[|ch| - 1].inuse
             && Binned(ch, b, Swallowed(ch, i))
    ensures var p, s := ch[From(ch, i)].addr, Stretch(ch, i);
            var ch' := Splice(ch, From(ch, i), To(ch, i), [Tile(p, s, false)]);
            && Binned(ch', b, if To(ch, i) < |ch| then {p} else {}) && UsedLess(ch, ch', ch[i].addr)
            && (To(ch, i) < |ch| ==> IsFree(ch', p, s))
  {
    hide Tiled, Binned, IsFree, IsUsed, Stretch;
    var lo, hi, s := From(ch, i), To(ch, i), Stretch(ch, i);
    var p := ch[lo].addr;
    var ch' := Splice(ch, lo, hi, [Tile(p, s, false)]);
    forall a: nat, t: nat
      ensures IsFree(ch', a, t) <==> (IsFree(ch, a, t) && a !in Swallowed(ch, i)) || (hi < |ch| && a == p && t == s)
      ensures IsUsed(ch', a, t) <==> IsUsed(ch, a, t) && a != ch[i].addr
      ensures IsFree(ch, a, t) ==> a != ch[i].addr
    {
      ReleaseEffect(ch, base, limit, i, a, t);
      NotFree(ch, base, limit, i, a, t);
    }
    CutChanges(ch, ch', b, Swallowed(ch, i), if hi < |ch| then {p} else {});
  }

  lemma WellTiled(head: Heads, foot: Feet, ch: seq<Tile>, base: nat, limit: nat)
    requires WellFormed(head, foot, ch, base, limit)
    ensures Tiled(ch, base, limit) && ch != [] && !ch[|ch| - 1].inuse
  {
  }

  /** No chunk begins inside another. */
  lemma InnerNotFree(ch: seq<Tile>, base: nat, limit: nat, i: nat, r: nat)
    requires Tiled(ch, base, limit) && i < |ch| && ch[i].addr < r < End(ch[i])
    ensures forall t: nat {:trigger IsFree(ch, r, t)} :: !IsFree(ch, r, t)
  {
    hide Tiled;
    forall t: nat
      ensures !IsFree(ch, r, t)
    {
      if IsFree(ch, r, t) {
        var k := FreeIndex(ch, r, t);
        Apart(ch, base, limit, i, k);
        PositiveSize(ch, base, limit, k);
      }
    }
  }

  /** No free chunk below the top is large enough. */
  ghost predicate NoRoom(ch: seq<Tile>, nb: nat) {
    forall a: nat, s: nat {:trigger IsFree(ch, a, s)} :: IsFree(ch, a, s) ==> s < nb
  }
}
