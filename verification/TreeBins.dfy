/** The tree bins of an mspace: insertion, removal with replacement, and best-fit search, changed in place. */
module TreeBins {
  import opened TreeIndices
  import opened TrieTheory
  import opened TrieSteps
  import opened TrieRings
  import opened TrieFit

  class LargeBins {
    /** The free large chunks by address. */
    var mem: Memory
    var roots: seq<nat>
    var treemap: seq<bool>
    ghost var at: Places
    ghost var rings: Rings
    ghost var head: map<nat, nat>

    ghost predicate Valid()
      reads this
    {
      && Tree(mem, roots, at) && Rung(mem, at, rings, head) && 0 !in mem
      && |treemap| == TREE_BINS
      && forall i {:trigger treemap[i]} :: 0 <= i < TREE_BINS ==> (treemap[i] <==> roots[i] != 0)
    }

    /** The chunks held, with their sizes. */
    ghost function Sizes(): map<nat, nat>
      reads this`mem
    {
      SizesOf(mem)
    }

    constructor ()
      ensures Valid() && Sizes() == map[]
    {
      mem, roots, treemap := map[], seq(TREE_BINS, _ => 0), seq(TREE_BINS, _ => false);
      at, rings, head := map[], map[], map[];
    }

    // ----- insertion -----

    method InsertLargeChunk(x: nat, s: nat)
      requires Valid() && x != 0 && x !in mem && LargeSize(s)
      modifies this
      ensures Valid() && Sizes() == old(Sizes())[x := s]
    {
      hide Tree, Rung, PathOf, TreeIndex, LargeSize;
      RootsCount(mem, roots, at);
      var i := TreeIndex(s);
      if !treemap[i] {
        AddRoot(mem, roots, at, x, s);
        AddSingle(mem, roots, at, rings, head, mem[x := Fresh(s, x, Bin)], at[x := Pos(i, [])], x, s);
        treemap := treemap[i := true];
        mem, roots := mem[x := Fresh(s, x, Bin)], roots[i := x];
        at, rings, head := at[x := Pos(i, [])], rings[x := [x]], head[x := x];
      } else {
        var t, b := Descend(s);
        if mem[t].size == s {
          Join(t, x, s);
        } else {
          Hang(t, b, x, s);
        }
      }
    }

    /** Follows the bits of a size down its bin: to the node of that size, or to where one would hang. */
    method Descend(s: nat) returns (t: nat, b: bool)
      requires Valid() && LargeSize(s) && treemap[TreeIndex(s)]
      ensures t in at && t in mem && at[t].bin == TreeIndex(s) && at[t].path <= PathOf(s)
      ensures mem[t].size != s ==> |at[t].path| < 64 && b == PathOf(s)[|at[t].path|] && Child(mem[t], b) == 0
      ensures mem[t].size != s ==> forall n {:trigger at[n]} :: n in at && n in mem ==> mem[n].size != s
    {
      hide Tree, Rung, PathOf, TreeIndex, LargeSize, SizeBits;
      RootsCount(mem, roots, at);
      SearchRoot(mem, roots, at, s);
      t, b := roots[TreeIndex(s)], false;
      ghost var w := SizeBits(TreeIndex(s), s);
      var k := SizeBits(TreeIndex(s), s);
      while mem[t].size != s
        invariant t in at && t in mem && at[t].bin == TreeIndex(s) && at[t].path <= PathOf(s)
                  && OnlyBelow(mem, at, t, s)
        invariant k == Shifted(w, |at[t].path|)
        decreases 64 - |at[t].path|
      {
        SearchDown(mem, roots, at, t, s);
        TurnIs(s, |at[t].path|);
        b := k >= HALF;
        k := Shl(k);
        var c := Child(mem[t], b);
        if c == 0 {
          NotThere(mem, roots, at, t, s);
          return;
        }
        t := c;
      }
    }

    /** Hangs a chunk of a new size below t. */
    method Hang(t: nat, b: bool, x: nat, s: nat)
      requires Valid() && x != 0 && x !in mem && LargeSize(s) && t in at && t in mem && Child(mem[t], b) == 0
      requires at[t].bin == TreeIndex(s) && at[t].path + [b] <= PathOf(s)
      requires forall n {:trigger at[n]} :: n in at && n in mem ==> mem[n].size != s
      modifies this`mem, this`at, this`rings, this`head
      ensures Valid() && Sizes() == old(Sizes())[x := s]
    {
      hide Tree, Rung, PathOf, TreeIndex, LargeSize;
      AddChild(mem, roots, at, t, b, x, s);
      ghost var at' := at[x := Pos(at[t].bin, at[t].path + [b])];
      var m := mem[x := Fresh(s, x, Up(t))];
      AddSingle(mem, roots, at, rings, head, m[t := WithChild(m[t], b, x)], at', x, s);
      mem := m[t := WithChild(m[t], b, x)];
      at, rings, head := at', rings[x := [x]], head[x := x];
    }

    /** Puts a chunk into the ring of the node of its size. */
    method Join(t: nat, x: nat, s: nat)
      requires Valid() && x != 0 && x !in mem && t in at && t in mem && mem[t].size == s
      modifies this`mem, this`rings, this`head
      ensures Valid() && Sizes() == old(Sizes())[x := s]
    {
      hide Tree, Rung;
      JoinRung(mem, roots, at, rings, head, t, x, s);
      TreeKept(mem, LinkIn(mem, t, x, s), roots, at);
      var f := mem[t].fd;
      mem := mem[x := TChunk(s, f, t, 0, 0, None)];
      mem := mem[t := mem[t].(fd := x)];
      mem := mem[f := mem[f].(bk := x)];
      rings, head := rings[t := [t, x] + rings[t][1..]], head[x := t];
    }

    // ----- removal -----

    /** Takes a chunk out: from its ring, or from its tree with another of its ring or a leaf in its place. */
    method UnlinkLargeChunk(x: nat)
      requires Valid() && x in mem
      modifies this
      ensures Valid() && Sizes() == old(Sizes()) - {x}
    {
      hide Tree, Rung, PathOf, TreeIndex, LargeSize;
      if mem[x].bk != x {
        if mem[x].parent == None {
          UnlinkWaiting(x);
        } else {
          UnlinkShared(x);
        }
      } else if mem[x].right == 0 && mem[x].left == 0 {
        UnlinkLeaf(x);
      } else {
        UnlinkInner(x);
      }
    }

    /** A chunk that waits in a ring. */
    method UnlinkWaiting(x: nat)
      requires Valid() && x in mem && mem[x].bk != x && mem[x].parent == None
      modifies this`mem, this`rings, this`head
      ensures Valid() && Sizes() == old(Sizes()) - {x}
    {
      hide Tree, Rung, PathOf, TreeIndex, LargeSize;
      NotInTree(mem, roots, at, x);
      ghost var i := LeaveRing(mem, roots, at, rings, head, x);
      TreeKept(mem, LinkOut(mem, x) - {x}, roots, at);
      LinkOutFacts(mem, x);
      var f, r := mem[x].fd, mem[x].bk;
      mem := mem[f := mem[f].(bk := r)];
      mem := mem[r := mem[r].(fd := f)];
      mem := mem - {x};
      rings, head := rings[head[x] := DropAt(rings[head[x]], i)], head - {x};
    }

    /** A tree node with others of its size: the one behind it in the ring takes its place. */
    method UnlinkShared(x: nat)
      requires Valid() && x in mem && mem[x].bk != x && mem[x].parent != None
      modifies this
      ensures Valid() && Sizes() == old(Sizes()) - {x}
    {
      hide Tree, Rung, PathOf, TreeIndex, LargeSize, Relink;
      InTree(mem, roots, at, rings, head, x);
      var f, r := mem[x].fd, mem[x].bk;
      SharedTree(mem, roots, at, rings, head, x);
      RootsCount(mem, roots, at);
      mem := mem[f := mem[f].(bk := r)];
      mem := mem[r := mem[r].(fd := f)];
      Replacing(x, r);
      mem := mem - {x};
      rings, head := (rings - {x})[r := [r] + rings[x][1..|rings[x]| - 1]], Headed(head, x, r);
      at := (at - {x})[r := at[x]];
    }

    /** Redirects the pointers into the place of x to r. */
    method Replacing(x: nat, r: nat)
      requires Replaceable(mem, roots, at, x) && r in mem && r != 0
      modifies this`mem, this`roots
      ensures mem == Relink(old(mem), x, r) && roots == ReplacedRoots(old(mem), old(roots), x, at[x].bin, r)
    {
      hide TreeIndex;
      var xp := mem[x].parent;
      var i := TreeIndex(mem[x].size);
      var c0, c1 := mem[x].left, mem[x].right;
      if x == roots[i] {
        roots := roots[i := r];
      } else if mem[xp.a].left == x {
        mem := mem[xp.a := mem[xp.a].(left := r)];
      } else {
        mem := mem[xp.a := mem[xp.a].(right := r)];
      }
      mem := mem[r := mem[r].(parent := xp)];
      if c0 != 0 {
        mem := mem[r := mem[r].(left := c0)];
        mem := mem[c0 := mem[c0].(parent := Up(r))];
      }
      if c1 != 0 {
        mem := mem[r := mem[r].(right := c1)];
        mem := mem[c1 := mem[c1].(parent := Up(r))];
      }
    }

    /** A leaf, alone of its size. */
    method UnlinkLeaf(x: nat)
      requires Valid() && x in mem && mem[x].bk == x && mem[x].left == 0 && mem[x].right == 0
      modifies this
      ensures Valid() && Sizes() == old(Sizes()) - {x}
    {
      hide Tree, Rung, PathOf, TreeIndex, LargeSize;
      AloneInRing(mem, roots, at, rings, head, x);
      LeafTree(mem, roots, at, rings, head, x);
      RootsCount(mem, roots, at);
      var xp := mem[x].parent;
      var i := TreeIndex(mem[x].size);
      if x == roots[i] {
        roots := roots[i := 0];
        treemap := treemap[i := false];
      } else if mem[xp.a].left == x {
        mem := mem[xp.a := mem[xp.a].(left := 0)];
      } else {
        mem := mem[xp.a := mem[xp.a].(right := 0)];
      }
      mem := mem - {x};
      at, rings, head := at - {x}, rings - {x}, head - {x};
    }

    /** An inner node, alone of its size: its rightmost descendant takes its place. */
    method UnlinkInner(x: nat)
      requires Valid() && x in mem && mem[x].bk == x && (mem[x].left != 0 || mem[x].right != 0)
      modifies this
      ensures Valid() && Sizes() == old(Sizes()) - {x}
    {
      hide Tree, Rung, PathOf, TreeIndex, LargeSize, Relink, Good, CutMemory;
      AloneInRing(mem, roots, at, rings, head, x);
      var r := RightmostLeaf(x);
      InnerTree(mem, roots, at, rings, head, x, r);
      RootsCount(mem, roots, at);
      CutLast(r);
      at := at - {r};
      Replacing(x, r);
      mem := mem - {x};
      at, rings, head := (at - {x})[r := at[x]], rings - {x}, head - {x};
    }

    /** Takes a leaf off its parent. */
    method CutLast(r: nat)
      requires r in mem && mem[r].parent.Up? && mem[r].parent.a in mem
      modifies this`mem
      ensures mem == CutMemory(old(mem), r)
    {
      var rp := mem[r].parent.a;
      if mem[rp].left == r {
        mem := mem[rp := mem[rp].(left := 0)];
      } else {
        mem := mem[rp := mem[rp].(right := 0)];
      }
    }

    method RightmostLeaf(x: nat) returns (r: nat)
      requires Valid() && x in at && x in mem && (mem[x].left != 0 || mem[x].right != 0)
      ensures r in at && r in mem && mem[r].left == 0 && mem[r].right == 0
      ensures at[r].bin == at[x].bin && at[x].path <= at[r].path && r != x
    {
      hide Tree, Rung, PathOf, TreeIndex, LargeSize;
      StepDown(mem, roots, at, x);
      r := if Child(mem[x], true) != 0 then Child(mem[x], true) else Child(mem[x], false);
      while mem[r].left != 0 || mem[r].right != 0
        invariant r in at && r in mem && at[r].bin == at[x].bin && at[x].path <= at[r].path
                  && |at[x].path| < |at[r].path| <= 64
        decreases 64 - |at[r].path|
      {
        StepDown(mem, roots, at, r);
        r := if Child(mem[r], true) != 0 then Child(mem[r], true) else Child(mem[r], false);
      }
    }

    // ----- search -----

    /** The chunk of least size that is not below nb; 0 if there is none. */
    method BestFit(nb: nat) returns (v: nat)
      requires Valid() && MIN_LARGE_SIZE <= nb < WORD
      ensures v == 0 <==> forall y :: y in mem ==> mem[y].size < nb
      ensures v != 0 ==>
                v in mem && mem[v].size >= nb
                  && forall y :: y in mem && mem[y].size >= nb ==> mem[v].size <= mem[y].size
    {
      hide Tree, Rung, PathOf, TreeIndex, Left, AllFit, Closed;
      RootsCount(mem, roots, at);
      var rsize, t;
      v, rsize, t := SearchPath(nb);
      if t == 0 && v == 0 {
        t := NextBin(nb);
      }
      v := LeastFrom(nb, v, rsize, t);
      Everywhere(nb, v);
    }

    /** Where the search of one bin ends: with an exact fit, with something to go on from, or with nothing. */
    ghost predicate SearchEnds(nb: nat, v: nat, t: nat)
      reads this
    {
      && (v != 0 ==> v in mem) && (t != 0 ==> t in at && t in mem && |at[t].path| <= 64)
      && if nb >= INDEXABLE then v == 0
         else
           || (v != 0 && mem[v].size == nb)
           || (AllFit(mem, at, nb, t)
               && (if t == 0 && v == 0 then Closed(mem, at, nb, TreeIndex(nb), 0, 0) else Left(mem, at, nb, v, t)))
    }

    /** In the bin of nb: along its path, remembering the best fit and the right subtree to come back to. */
    method SearchPath(nb: nat) returns (v: nat, rsize: nat, t: nat)
      requires Valid() && MIN_LARGE_SIZE <= nb < WORD
      ensures Best(mem, at, nb, v, rsize) && |roots| == TREE_BINS && SearchEnds(nb, v, t)
    {
      hide Tree, Rung, PathOf, TreeIndex, SizeBits, Left, AllFit, Open, Closed, PassedBy;
      RootsCount(mem, roots, at);
      var idx := TreeIndex(nb);
      v, rsize, t := 0, WORD - nb, roots[idx];
      if t == 0 {
        EmptyBin(mem, roots, at, nb);
        return;
      }
      OpenRoot(mem, roots, at, nb);
      var sizebits := SizeBits(idx, nb);
      ghost var w := sizebits;
      var rst := 0;
      while true
        invariant t in at && t in mem && at[t].bin == idx && |at[t].path| <= 64 && sizebits == Shifted(w, |at[t].path|)
        invariant (v != 0 ==> v in at && at[v].bin == idx)
                  && (rst != 0 ==> rst in at && rst in mem && |at[rst].path| <= 64)
        invariant Best(mem, at, nb, v, rsize) && (nb >= INDEXABLE ==> v == 0)
        invariant nb < INDEXABLE ==> at[t].path <= PathOf(nb) && PassedBy(at, t, rst) && Open(mem, at, nb, v, t, rst)
        decreases 64 - |at[t].path|
      {
        ghost var v0 := v;
        v, rsize := Consider(nb, v, rsize, t);
        if v != 0 && rsize == 0 {
          return;
        }
        StepDown(mem, roots, at, t);
        ghost var here, rst0 := t, rst;
        if nb < INDEXABLE {
          OpenBetter(mem, at, nb, v0, v, t, rst);
          OnPath(mem, roots, at, nb, t);
          PathStep(mem, roots, at, nb, v, t, rst);
          TurnIs(nb, |at[t].path|);
        }
        var rt := Child(mem[t], true);
        t := Child(mem[t], sizebits >= HALF);
        if rt != 0 && rt != t {
          rst := rt;
        }
        if t == 0 {
          if nb < INDEXABLE {
            PassedHere(mem, roots, at, nb, here, rst);
            if v != 0 || rst != 0 {
              ClosedLeft(mem, roots, at, nb, v, rst);
            }
          }
          t := rst;
          return;
        }
        sizebits := Shl(sizebits);
      }
    }

    /** Takes t instead of v if it fits better; sizes are subtracted as 64-bit words. */
    method Consider(nb: nat, v: nat, rsize: nat, t: nat) returns (v': nat, rsize': nat)
      requires Valid() && 0 < nb < WORD && Best(mem, at, nb, v, rsize) && t in at && t in mem
      ensures Best(mem, at, nb, v', rsize') && (v' == v || v' == t) && (nb >= INDEXABLE ==> v' == v)
      ensures mem[t].size >= nb ==> Covers(mem, v', t)
      ensures forall y :: Covers(mem, v, y) ==> Covers(mem, v', y)
    {
      hide Tree, Rung;
      SizeFits(mem, roots, at, t);
      v', rsize' := v, rsize;
      var trem := if mem[t].size >= nb then mem[t].size - nb else mem[t].size - nb + WORD;
      if trem < rsize {
        v', rsize' := t, trem;
      }
    }

    /** The root of the next nonempty bin. */
    method NextBin(nb: nat) returns (t: nat)
      requires Valid() && MIN_LARGE_SIZE <= nb && |roots| == TREE_BINS
               && (nb < INDEXABLE ==> Closed(mem, at, nb, TreeIndex(nb), 0, 0))
      ensures t != 0 ==> t in at && t in mem && |at[t].path| <= 64
      ensures nb < INDEXABLE ==> Left(mem, at, nb, 0, t) && AllFit(mem, at, nb, t)
    {
      hide Tree, Rung, PathOf, TreeIndex, Left, AllFit, Closed;
      var i := TreeIndex(nb) + 1;
      while i < TREE_BINS && !treemap[i]
        invariant TreeIndex(nb) < i <= TREE_BINS
        invariant forall k {:trigger roots[k]} :: TreeIndex(nb) < k < i ==> roots[k] == 0
      {
        i := i + 1;
      }
      if nb < INDEXABLE {
        NextBinLeft(mem, roots, at, nb, i);
      }
      if i == TREE_BINS {
        return 0;
      }
      RootPlace(mem, roots, at, i);
      return roots[i];
    }

    /** Down the left side from t: the best of its subtree, or v. */
    method LeastFrom(nb: nat, v0: nat, rsize0: nat, t0: nat) returns (v: nat)
      requires Valid() && 0 < nb < WORD && Best(mem, at, nb, v0, rsize0)
      requires if nb >= INDEXABLE then v0 == 0
               else (v0 != 0 && mem[v0].size == nb) || (AllFit(mem, at, nb, t0) && Left(mem, at, nb, v0, t0))
      requires t0 != 0 ==> t0 in at && t0 in mem && |at[t0].path| <= 64
      ensures v != 0 ==> Fits(mem, at, nb, v)
      ensures if nb >= INDEXABLE then v == 0 else (v != 0 && mem[v].size == nb) || Left(mem, at, nb, v, 0)
    {
      hide Tree, Rung, PathOf, Left, AllFit;
      var rsize, t := rsize0, t0;
      v := v0;
      while t != 0
        invariant Best(mem, at, nb, v, rsize) && (t != 0 ==> t in at && t in mem && |at[t].path| <= 64)
        invariant if nb >= INDEXABLE then v == 0
                  else (v != 0 && mem[v].size == nb) || (AllFit(mem, at, nb, t) && Left(mem, at, nb, v, t))
        decreases t != 0, if t in at then 64 - |at[t].path| else 0
      {
        ghost var was := v;
        v, rsize := Consider(nb, v, rsize, t);
        Exactly(mem, at, nb, was, v, t);
        StepDown(mem, roots, at, t);
        assert Child(mem[t], false) == mem[t].left && Child(mem[t], true) == mem[t].right;
        if nb < INDEXABLE && !(v != 0 && mem[v].size == nb) {
          LeftBetter(mem, at, nb, was, v, t);
          LeftStep(mem, roots, at, nb, v, t);
        }
        t := LeftmostChild(mem[t]);
      }
    }

    /** The nodes of the trees stand for all chunks. */
    lemma Everywhere(nb: nat, v: nat)
      requires Valid() && (v != 0 ==> Fits(mem, at, nb, v))
      requires if nb >= INDEXABLE then v == 0 else (v != 0 && mem[v].size == nb) || Left(mem, at, nb, v, 0)
      ensures v == 0 <==> forall y :: y in mem ==> mem[y].size < nb
      ensures v != 0 ==> forall y :: y in mem && mem[y].size >= nb ==> mem[v].size <= mem[y].size
    {
      hide Tree, Rung;
      AllLarge(mem, roots, at, rings, head);
      forall y | y in mem && mem[y].size >= nb
        ensures v != 0 && mem[v].size <= mem[y].size
      {
        if !(v != 0 && mem[v].size == nb) {
          var h := SameSizeNode(mem, roots, at, rings, head, y);
          assert Fits(mem, at, nb, h);
          assert Covers(mem, v, h);
        }
      }
    }

    /** A small request is met from the least chunk of all. */
    method LeastChunk(nb: nat) returns (v: nat)
      requires Valid() && 0 < nb < MIN_LARGE_SIZE && mem != map[]
      ensures v in mem && mem[v].size >= MIN_LARGE_SIZE && forall y :: y in mem ==> mem[v].size <= mem[y].size
    {
      hide Tree, Rung, PathOf, TreeIndex, Left, AllFit;
      RootsCount(mem, roots, at);
      SomeBin(mem, roots, at, rings, head);
      var i := 0;
      while !treemap[i]
        invariant 0 <= i < TREE_BINS && forall k {:trigger roots[k]} :: 0 <= k < i ==> roots[k] == 0
        invariant exists k {:trigger roots[k]} :: i <= k < TREE_BINS && roots[k] != 0
        decreases TREE_BINS - i
      {
        i := i + 1;
      }
      LeastBinLeft(mem, roots, at, nb, i);
      RootPlace(mem, roots, at, i);
      v := LeastFrom(nb, 0, WORD - nb, roots[i]);
      AllLarge(mem, roots, at, rings, head);
      Everywhere(nb, v);
    }

    /** The held sizes are those of large chunks. */
    lemma HeldLarge()
      requires Valid()
      ensures forall a :: a in Sizes() ==> LargeSize(Sizes()[a])
    {
      AllLarge(mem, roots, at, rings, head);
    }

    method IsEmpty() returns (e: bool)
      requires Valid()
      ensures e <==> Sizes() == map[]
    {
      e := forall i | 0 <= i < TREE_BINS :: !treemap[i];
      hide Tree, Rung;
      RootsCount(mem, roots, at);
      if mem != map[] {
        SomeBin(mem, roots, at, rings, head);
        ghost var k :| 0 <= k < TREE_BINS && roots[k] != 0;
        assert treemap[k];
      } else {
        NothingHeld(mem, roots, at);
      }
      assert mem == map[] <==> Sizes() == map[] by {
        if mem != map[] {
          var y :| y in mem;
          assert y in Sizes();
        }
      }
    }
  }
}
