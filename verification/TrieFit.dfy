/** Where in the tries the least size that is large enough can be. */
module TrieFit {
  import opened TreeIndices
  import opened TrieTheory
  import opened TrieSteps
  import opened TrieRings

  /** y is t or below it. */
  ghost predicate Sub(at: Places, t: nat, y: nat) {
    y in at && t in at && at[y].bin == at[t].bin && at[t].path <= at[y].path
  }

  ghost predicate Fits(mem: Memory, at: Places, nb: nat, y: nat) {
    y in at && y in mem && mem[y].size >= nb
  }

  /** v is at least as good as y. */
  ghost predicate Covers(mem: Memory, v: nat, y: nat) {
    v != 0 && v in mem && y in mem && mem[v].size <= mem[y].size
  }

  /** y is below t, or larger than t. */
  ghost predicate FoundFrom(mem: Memory, at: Places, t: nat, y: nat) {
    t != 0 && t in mem && y in mem && (Sub(at, t, y) || mem[t].size < mem[y].size)
  }

  /** The deepest right subtree that the search for nb has passed by on its way to t. */
  ghost predicate PassedBy(at: Places, t: nat, rst: nat) {
    && t in at
    && (rst != 0 ==>
          && rst in at && at[rst].bin == at[t].bin
          && exists d :: 0 <= d < |at[t].path| && at[rst].path == at[t].path[..d] + [true] && !at[t].path[d])
  }

  /** While the search stands on t: what fits in the bin is covered, or below t, or to be found from rst. */
  ghost predicate Open(mem: Memory, at: Places, nb: nat, v: nat, t: nat, rst: nat) {
    t in at && forall y {:trigger at[y]} :: Fits(mem, at, nb, y) && at[y].bin == at[t].bin ==>
      Covers(mem, v, y) || Sub(at, t, y) || FoundFrom(mem, at, rst, y)
  }

  /** When the search has left the path: what fits in the bin is covered or to be found from rst. */
  ghost predicate Closed(mem: Memory, at: Places, nb: nat, bin: nat, v: nat, rst: nat) {
    forall y {:trigger at[y]} ::
      Fits(mem, at, nb, y) && at[y].bin == bin ==> Covers(mem, v, y) || FoundFrom(mem, at, rst, y)
  }

  /** Everything below t fits. */
  ghost predicate AllFit(mem: Memory, at: Places, nb: nat, t: nat) {
    t != 0 ==> t in at && t in mem && forall y {:trigger at[y]} :: Sub(at, t, y) ==> y in mem && mem[y].size >= nb
  }

  /** What fits anywhere is covered or to be found from t. */
  ghost predicate Left(mem: Memory, at: Places, nb: nat, v: nat, t: nat) {
    forall y {:trigger at[y]} :: Fits(mem, at, nb, y) ==> Covers(mem, v, y) || FoundFrom(mem, at, t, y)
  }

  // ----- one step along the path of nb -----

  /** A node that lies to the left of the path is too small, one to the right is large enough. */
  lemma Beside(mem: Memory, roots: seq<nat>, at: Places, nb: nat, pos: Pos, y: nat)
    requires Tree(mem, roots, at) && LargeSize(nb) && pos.bin == TreeIndex(nb) && y in at && at[y].bin == pos.bin
    requires |pos.path| < 64 && pos.path <= PathOf(nb) && pos.path + [!PathOf(nb)[|pos.path|]] <= at[y].path
    ensures y in mem && (if PathOf(nb)[|pos.path|] then mem[y].size < nb else nb < mem[y].size)
  {
    hide Tree, PathOf, TreeIndex, LargeSize;
    At(mem, roots, at, y);
    var d := |pos.path|;
    var p, q := PathOf(mem[y].size), PathOf(nb);
    assert pos.path + [!q[d]] <= p;
    assert p[..d] == pos.path == q[..d] && p[d] == (pos.path + [!q[d]])[d];
    if q[d] {
      PathsPart(mem[y].size, nb, d);
    } else {
      PathsPart(nb, mem[y].size, d);
    }
  }

  /** What is passed by on the right is smaller than what was passed by before. */
  lemma DeeperSmaller(mem: Memory, roots: seq<nat>, at: Places, t: nat, rst: nat, rt: nat, y: nat)
    requires Tree(mem, roots, at) && PassedBy(at, t, rst) && rst != 0 && Sub(at, t, rt) && FoundFrom(mem, at, rst, y)
             && rt in mem
    ensures mem[rt].size < mem[y].size
  {
    hide Tree;
    var d :| 0 <= d < |at[t].path| && at[rst].path == at[t].path[..d] + [true] && !at[t].path[d];
    var pos := Pos(at[t].bin, at[t].path[..d]);
    assert at[t].path[..d] + [false] <= at[rt].path by {
      assert at[t].path[..d + 1] == at[t].path[..d] + [false];
    }
    LeftSmaller(mem, roots, at, pos, rt, rst);
    if Sub(at, rst, y) {
      LeftSmaller(mem, roots, at, pos, rt, y);
    }
  }

  /** The right subtree to come back to after the step from t. */
  function NextRst(mem: Memory, t: nat, b: bool, rst: nat): nat
    requires t in mem
  {
    if mem[t].right != 0 && mem[t].right != Child(mem[t], b) then mem[t].right else rst
  }

  /** One fitting node after the step from t, which v covers if it fits. */
  lemma StepCovers(mem: Memory, roots: seq<nat>, at: Places, nb: nat, v: nat, t: nat, rst: nat, y: nat)
    requires Tree(mem, roots, at) && LargeSize(nb) && t in at && at[t].bin == TreeIndex(nb)
             && at[t].path <= PathOf(nb) && |at[t].path| < 64
    requires PassedBy(at, t, rst) && t in mem && (mem[t].size >= nb ==> Covers(mem, v, t))
    requires Fits(mem, at, nb, y) && at[y].bin == at[t].bin
    requires Covers(mem, v, y) || Sub(at, t, y) || FoundFrom(mem, at, rst, y)
    ensures var b := PathOf(nb)[|at[t].path|];
            Covers(mem, v, y) || Sub(at, Child(mem[t], b), y) || FoundFrom(mem, at, NextRst(mem, t, b, rst), y)
  {
    hide Tree, PathOf, TreeIndex, LargeSize;
    var d := |at[t].path|;
    var b := PathOf(nb)[d];
    var rst' := NextRst(mem, t, b, rst);
    StepDown(mem, roots, at, t);
    assert Child(mem[t], true) == mem[t].right;
    BothSides(mem, roots, at, t, t);
    if y != t && Sub(at, t, y) {
      var c := Below(mem, roots, at, t, y);
      if c != b {
        Beside(mem, roots, at, nb, at[t], y);
        DifferentChildren(mem, roots, at, t);
      }
    } else if FoundFrom(mem, at, rst, y) && rst' != rst {
      DeeperSmaller(mem, roots, at, t, rst, rst', y);
    }
  }

  lemma DifferentChildren(mem: Memory, roots: seq<nat>, at: Places, t: nat)
    requires Tree(mem, roots, at) && t in at
    ensures t in mem && (mem[t].left == mem[t].right ==> mem[t].left == 0)
  {
    hide Tree, PathOf;
    At(mem, roots, at, t);
    OneSide(mem, at, t);
  }

  /** The step from t to the child on the path, or off the path. */
  lemma PathStep(mem: Memory, roots: seq<nat>, at: Places, nb: nat, v: nat, t: nat, rst: nat)
    requires Tree(mem, roots, at) && LargeSize(nb) && t in at && at[t].bin == TreeIndex(nb)
             && at[t].path <= PathOf(nb) && |at[t].path| < 64
    requires PassedBy(at, t, rst) && Open(mem, at, nb, v, t, rst) && t in mem
             && (mem[t].size >= nb ==> Covers(mem, v, t))
    ensures var b := PathOf(nb)[|at[t].path|];
            var c, rst' := Child(mem[t], b), NextRst(mem, t, b, rst);
            if c == 0 then Closed(mem, at, nb, at[t].bin, v, rst')
            else c in at && c in mem && at[c].bin == at[t].bin && at[c].path <= PathOf(nb)
                 && |at[c].path| == |at[t].path| + 1
                 && PassedBy(at, c, rst') && Open(mem, at, nb, v, c, rst')
  {
    hide Tree, PathOf, TreeIndex, LargeSize, Covers, FoundFrom;
    var d := |at[t].path|;
    var b := PathOf(nb)[d];
    var c, rst' := Child(mem[t], b), NextRst(mem, t, b, rst);
    StepDown(mem, roots, at, t);
    NoZero(mem, roots, at);
    forall y | Fits(mem, at, nb, y) && at[y].bin == at[t].bin
      ensures Covers(mem, v, y) || Sub(at, c, y) || FoundFrom(mem, at, rst', y)
    {
      StepCovers(mem, roots, at, nb, v, t, rst, y);
    }
    if c != 0 {
      assert at[c].path == at[t].path + [b] == PathOf(nb)[..d + 1];
      StillPassed(mem, roots, at, t, b, rst);
    }
  }

  lemma NoZero(mem: Memory, roots: seq<nat>, at: Places)
    requires Tree(mem, roots, at)
    ensures 0 !in at
  {
    hide Tree;
    if 0 in at {
      At(mem, roots, at, 0);
    }
  }

  lemma StillPassed(mem: Memory, roots: seq<nat>, at: Places, t: nat, b: bool, rst: nat)
    requires Tree(mem, roots, at) && t in at && t in mem && PassedBy(at, t, rst) && Child(mem[t], b) != 0
    ensures PassedBy(at, Child(mem[t], b), NextRst(mem, t, b, rst))
  {
    hide Tree;
    StepDown(mem, roots, at, t);
    var c, rst', d := Child(mem[t], b), NextRst(mem, t, b, rst), |at[t].path|;
    assert Child(mem[t], true) == mem[t].right;
    assert at[c].path[..d] == at[t].path;
    if rst' == mem[t].right && rst' != 0 && rst' != c {
      assert at[rst'].path == at[c].path[..d] + [true] && !at[c].path[d];
    } else if rst' != 0 {
      var e :| 0 <= e < d && at[rst].path == at[t].path[..e] + [true] && !at[t].path[e];
      assert at[c].path[..e] == at[t].path[..e] && at[c].path[e] == at[t].path[e];
    }
  }

  /** What was passed by on the right fits, all of it. */
  lemma PassedFits(mem: Memory, roots: seq<nat>, at: Places, nb: nat, t: nat, rst: nat)
    requires Tree(mem, roots, at) && LargeSize(nb) && t in at && at[t].bin == TreeIndex(nb)
             && at[t].path <= PathOf(nb) && PassedBy(at, t, rst)
    ensures AllFit(mem, at, nb, rst)
  {
    hide Tree, PathOf, TreeIndex, LargeSize;
    if rst != 0 {
      var d :| 0 <= d < |at[t].path| && at[rst].path == at[t].path[..d] + [true] && !at[t].path[d];
      assert PathOf(nb)[d] == at[t].path[d] && at[t].path[..d] <= PathOf(nb);
      forall y | Sub(at, rst, y)
        ensures y in mem && mem[y].size >= nb
      {
        Beside(mem, roots, at, nb, Pos(at[t].bin, at[t].path[..d]), y);
      }
      At(mem, roots, at, rst);
    }
  }

  // ----- across bins -----

  lemma SizesByBin(mem: Memory, roots: seq<nat>, at: Places, x: nat, y: nat)
    requires Tree(mem, roots, at) && x in at && y in at && at[x].bin < at[y].bin
    ensures x in mem && y in mem && mem[x].size < mem[y].size
  {
    hide Tree, PathOf, TreeIndex;
    At(mem, roots, at, x);
    At(mem, roots, at, y);
    IndexRight(mem[x].size);
    IndexRight(mem[y].size);
    BinsOrdered(at[x].bin, at[y].bin, mem[x].size, mem[y].size);
  }

  lemma FitsByBin(mem: Memory, roots: seq<nat>, at: Places, nb: nat, y: nat)
    requires Tree(mem, roots, at) && LargeSize(nb) && y in at
    ensures y in mem && (mem[y].size >= nb ==> at[y].bin >= TreeIndex(nb))
            && (at[y].bin > TreeIndex(nb) ==> mem[y].size > nb)
  {
    hide Tree, PathOf, TreeIndex;
    At(mem, roots, at, y);
    IndexRight(nb);
    IndexRight(mem[y].size);
    if at[y].bin < TreeIndex(nb) {
      BinsOrdered(at[y].bin, TreeIndex(nb), mem[y].size, nb);
    } else if at[y].bin > TreeIndex(nb) {
      BinsOrdered(TreeIndex(nb), at[y].bin, nb, mem[y].size);
    }
  }

  /** Leaving the path with something in hand: larger bins cannot do better. */
  lemma ClosedLeft(mem: Memory, roots: seq<nat>, at: Places, nb: nat, v: nat, rst: nat)
    requires Tree(mem, roots, at) && LargeSize(nb) && Closed(mem, at, nb, TreeIndex(nb), v, rst) && (v != 0 || rst != 0)
    requires v != 0 ==> v in at && at[v].bin == TreeIndex(nb)
    requires rst != 0 ==> rst in at && at[rst].bin == TreeIndex(nb)
    ensures Left(mem, at, nb, v, rst)
  {
    hide Tree, TreeIndex, LargeSize;
    forall y | Fits(mem, at, nb, y)
      ensures Covers(mem, v, y) || FoundFrom(mem, at, rst, y)
    {
      FitsByBin(mem, roots, at, nb, y);
      if at[y].bin > TreeIndex(nb) {
        if v != 0 {
          SizesByBin(mem, roots, at, v, y);
        } else {
          SizesByBin(mem, roots, at, rst, y);
        }
      }
    }
  }

  /** Leaving the path with nothing: the next nonempty bin has the least. */
  lemma NextBinLeft(mem: Memory, roots: seq<nat>, at: Places, nb: nat, i: nat)
    requires Tree(mem, roots, at) && LargeSize(nb) && Closed(mem, at, nb, TreeIndex(nb), 0, 0)
    requires TreeIndex(nb) < i <= TREE_BINS && |roots| == TREE_BINS
    requires forall k {:trigger roots[k]} :: TreeIndex(nb) < k < i ==> roots[k] == 0
    requires i < TREE_BINS ==> roots[i] != 0
    ensures var t := if i < TREE_BINS then roots[i] else 0; Left(mem, at, nb, 0, t) && AllFit(mem, at, nb, t)
  {
    hide Tree, TreeIndex, LargeSize;
    var t := if i < TREE_BINS then roots[i] else 0;
    if t != 0 {
      RootPlace(mem, roots, at, i);
      forall y | Sub(at, t, y)
        ensures y in mem && mem[y].size >= nb
      {
        FitsByBin(mem, roots, at, nb, y);
      }
    }
    forall y | Fits(mem, at, nb, y)
      ensures FoundFrom(mem, at, t, y)
    {
      FitsByBin(mem, roots, at, nb, y);
      RootThere(mem, roots, at, y);
      assert at[y].bin >= i;
      if at[y].bin > i {
        SizesByBin(mem, roots, at, t, y);
      }
    }
  }

  lemma RootPlace(mem: Memory, roots: seq<nat>, at: Places, i: nat)
    requires Tree(mem, roots, at) && i < TREE_BINS && |roots| == TREE_BINS && roots[i] != 0
    ensures roots[i] in at && roots[i] in mem && at[roots[i]] == Pos(i, [])
  {
    assert roots[i] in at;
    At(mem, roots, at, roots[i]);
  }

  /** A small request: the least nonempty bin has the least chunk. */
  lemma LeastBinLeft(mem: Memory, roots: seq<nat>, at: Places, nb: nat, i: nat)
    requires Tree(mem, roots, at) && nb < MIN_LARGE_SIZE && i < TREE_BINS && |roots| == TREE_BINS && roots[i] != 0
    requires forall k {:trigger roots[k]} :: 0 <= k < i ==> roots[k] == 0
    ensures Left(mem, at, nb, 0, roots[i]) && AllFit(mem, at, nb, roots[i])
  {
    hide Tree, TreeIndex;
    var t := roots[i];
    RootPlace(mem, roots, at, i);
    forall y | Sub(at, t, y)
      ensures y in mem && mem[y].size >= nb
    {
      At(mem, roots, at, y);
    }
    forall y | Fits(mem, at, nb, y)
      ensures FoundFrom(mem, at, t, y)
    {
      RootThere(mem, roots, at, y);
      if at[y].bin > i {
        SizesByBin(mem, roots, at, t, y);
      }
    }
  }

  // ----- down the left side -----

  function LeftmostChild(c: TChunk): nat {
    if c.left != 0 then c.left else c.right
  }

  /** After looking at t, only its leftmost child can lead to something better. */
  lemma LeftStep(mem: Memory, roots: seq<nat>, at: Places, nb: nat, v: nat, t: nat)
    requires Tree(mem, roots, at) && t != 0 && t in at && t in mem && AllFit(mem, at, nb, t) && Covers(mem, v, t)
    requires Left(mem, at, nb, v, t)
    ensures var c := LeftmostChild(mem[t]);
            Left(mem, at, nb, v, c) && AllFit(mem, at, nb, c)
              && (c != 0 ==> c in at && c in mem && |at[t].path| < |at[c].path| <= 64)
  {
    hide Tree, PathOf;
    var c := LeftmostChild(mem[t]);
    StepDown(mem, roots, at, t);
    assert Child(mem[t], false) == mem[t].left && Child(mem[t], true) == mem[t].right;
    forall y | Fits(mem, at, nb, y)
      ensures Covers(mem, v, y) || FoundFrom(mem, at, c, y)
    {
      if Sub(at, t, y) && y != t {
        var b := Below(mem, roots, at, t, y);
        if b && mem[t].left != 0 {
          LeftSmaller(mem, roots, at, at[t], mem[t].left, y);
        }
      }
    }
    forall y | Sub(at, c, y) && c != 0
      ensures y in mem && mem[y].size >= nb
    {
      assert Sub(at, t, y);
    }
  }

  // ----- the best so far -----

  /** v fits and rsize is what it leaves over; without v, rsize is the 64-bit negation of nb. */
  ghost predicate Best(mem: Memory, at: Places, nb: nat, v: nat, rsize: nat) {
    if v == 0 then rsize + nb == WORD else Fits(mem, at, nb, v) && rsize == mem[v].size - nb && mem[v].size < WORD
  }

  lemma SizeFits(mem: Memory, roots: seq<nat>, at: Places, t: nat)
    requires Tree(mem, roots, at) && t in at
    ensures t in mem && 0 < mem[t].size < INDEXABLE && t != 0
  {
    At(mem, roots, at, t);
  }

  lemma EmptyBin(mem: Memory, roots: seq<nat>, at: Places, nb: nat)
    requires Tree(mem, roots, at) && |roots| == TREE_BINS && roots[TreeIndex(nb)] == 0
    ensures Closed(mem, at, nb, TreeIndex(nb), 0, 0) && AllFit(mem, at, nb, 0)
  {
    hide Tree, TreeIndex;
    forall y | y in at
      ensures at[y].bin != TreeIndex(nb)
    {
      RootThere(mem, roots, at, y);
    }
  }

  lemma OpenRoot(mem: Memory, roots: seq<nat>, at: Places, nb: nat)
    requires Tree(mem, roots, at) && |roots| == TREE_BINS && roots[TreeIndex(nb)] != 0
    ensures var t := roots[TreeIndex(nb)];
            && t in at && t in mem && at[t] == Pos(TreeIndex(nb), []) && PassedBy(at, t, 0)
            && Open(mem, at, nb, 0, t, 0)
  {
    hide Tree, TreeIndex;
    RootPlace(mem, roots, at, TreeIndex(nb));
  }

  lemma OpenBetter(mem: Memory, at: Places, nb: nat, v: nat, v': nat, t: nat, rst: nat)
    requires Open(mem, at, nb, v, t, rst) && forall y :: Covers(mem, v, y) ==> Covers(mem, v', y)
    ensures Open(mem, at, nb, v', t, rst)
  {
    hide Covers, FoundFrom, Sub;
  }

  lemma LeftBetter(mem: Memory, at: Places, nb: nat, v: nat, v': nat, t: nat)
    requires Left(mem, at, nb, v, t) && forall y :: Covers(mem, v, y) ==> Covers(mem, v', y)
    requires AllFit(mem, at, nb, t) && t != 0 && (t in mem && mem[t].size >= nb ==> Covers(mem, v', t))
    ensures Left(mem, at, nb, v', t) && Covers(mem, v', t)
  {
    hide Covers, FoundFrom;
    assert Sub(at, t, t);
    forall y | Fits(mem, at, nb, y)
      ensures Covers(mem, v', y) || FoundFrom(mem, at, t, y)
    {
      var _ := at[y];
    }
  }

  /** An exact fit stays one. */
  lemma Exactly(mem: Memory, at: Places, nb: nat, v: nat, v': nat, t: nat)
    requires v != 0 ==> Fits(mem, at, nb, v)
    requires v' != 0 ==> Fits(mem, at, nb, v')
    requires forall y :: Covers(mem, v, y) ==> Covers(mem, v', y)
    ensures v != 0 && mem[v].size == nb ==> v' != 0 && mem[v'].size == nb
  {
    if v != 0 {
      assert Covers(mem, v, v);
    }
  }

  /** On the path, a node that is no exact fit leaves room for another turn. */
  lemma OnPath(mem: Memory, roots: seq<nat>, at: Places, nb: nat, t: nat)
    requires Tree(mem, roots, at) && LargeSize(nb) && t in at && t in mem && at[t].bin == TreeIndex(nb)
             && at[t].path <= PathOf(nb) && mem[t].size != nb
    ensures |at[t].path| < 64
  {
    hide Tree, PathOf, TreeIndex;
    At(mem, roots, at, t);
    if |at[t].path| == 64 {
      assert at[t].path == PathOf(nb) && at[t].path == PathOf(mem[t].size);
      SamePath(nb, mem[t].size);
    }
  }

  /** At the end of the path, the right subtree to come back to fits. */
  lemma PassedHere(mem: Memory, roots: seq<nat>, at: Places, nb: nat, t: nat, rst: nat)
    requires Tree(mem, roots, at) && LargeSize(nb) && t in at && t in mem && at[t].bin == TreeIndex(nb)
             && at[t].path <= PathOf(nb) && |at[t].path| < 64
    requires PassedBy(at, t, rst) || (rst != 0 && rst == mem[t].right && !PathOf(nb)[|at[t].path|])
    ensures AllFit(mem, at, nb, rst)
            && (rst != 0 ==> rst in at && rst in mem && at[rst].bin == TreeIndex(nb) && |at[rst].path| <= 64)
  {
    hide Tree, PathOf, TreeIndex, LargeSize, AllFit;
    if PassedBy(at, t, rst) {
      PassedFits(mem, roots, at, nb, t, rst);
    } else {
      StepDown(mem, roots, at, t);
      assert Child(mem[t], true) == rst;
      RightFits(mem, roots, at, nb, t);
    }
    if rst != 0 {
      SizeFits(mem, roots, at, rst);
      At(mem, roots, at, rst);
    }
  }

  lemma RightFits(mem: Memory, roots: seq<nat>, at: Places, nb: nat, t: nat)
    requires Tree(mem, roots, at) && LargeSize(nb) && t in at && t in mem && at[t].bin == TreeIndex(nb)
             && at[t].path <= PathOf(nb) && |at[t].path| < 64
    requires mem[t].right != 0 && !PathOf(nb)[|at[t].path|]
    ensures AllFit(mem, at, nb, mem[t].right)
  {
    hide Tree, PathOf, TreeIndex, LargeSize;
    StepDown(mem, roots, at, t);
    var c := Child(mem[t], true);
    forall y | Sub(at, c, y)
      ensures y in mem && mem[y].size >= nb
    {
      Beside(mem, roots, at, nb, at[t], y);
    }
  }

  /** Every chunk has a tree node of its size. */
  lemma SameSizeNode(mem: Memory, roots: seq<nat>, at: Places, rings: Rings,
                     head: map<nat, nat>, y: nat) returns (h: nat)
    requires Tree(mem, roots, at) && Rung(mem, at, rings, head) && y in mem
    ensures h in at && h in mem && mem[h].size == mem[y].size
  {
    hide Tree, Rung;
    HeadOf(mem, at, rings, head, y);
    h := head[y];
    RingOf(mem, at, rings, head, h);
    var i := Standing(rings[h], y);
    assert MemberOk(mem, head, h, rings[h], i);
  }

  lemma SomeBin(mem: Memory, roots: seq<nat>, at: Places, rings: Rings, head: map<nat, nat>)
    requires Tree(mem, roots, at) && Rung(mem, at, rings, head) && mem != map[] && |roots| == TREE_BINS
    ensures exists k {:trigger roots[k]} :: 0 <= k < TREE_BINS && roots[k] != 0
  {
    hide Tree, Rung;
    var y :| y in mem;
    var h := SameSizeNode(mem, roots, at, rings, head, y);
    RootThere(mem, roots, at, h);
  }

  lemma AllLarge(mem: Memory, roots: seq<nat>, at: Places, rings: Rings, head: map<nat, nat>)
    requires Tree(mem, roots, at) && Rung(mem, at, rings, head)
    ensures forall y :: y in mem ==> LargeSize(mem[y].size)
  {
    hide Tree, Rung;
    forall y | y in mem
      ensures LargeSize(mem[y].size)
    {
      var h := SameSizeNode(mem, roots, at, rings, head, y);
      At(mem, roots, at, h);
    }
  }

  lemma NothingHeld(mem: Memory, roots: seq<nat>, at: Places)
    requires Tree(mem, roots, at) && mem == map[]
    ensures |roots| == TREE_BINS && forall i :: 0 <= i < TREE_BINS ==> roots[i] == 0
  {
    forall i | 0 <= i < TREE_BINS
      ensures roots[i] == 0
    {
      if roots[i] != 0 {
        At(mem, roots, at, roots[i]);
      }
    }
  }
}
