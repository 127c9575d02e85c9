/** Bitwise tries of chunk sizes, described node by node: what each pointer change keeps. */
module TrieTheory {
  import opened TreeIndices

  datatype Link = None | Bin | Up(a: nat)

  /** A free large chunk: its size, its ring of equal sizes, and its place in the tree; 0 is no chunk. */
  datatype TChunk = TChunk(size: nat, fd: nat, bk: nat, left: nat, right: nat, parent: Link)

  type Memory = map<nat, TChunk>

  function Child(c: TChunk, b: bool): nat {
    if b then c.right else c.left
  }

  function WithChild(c: TChunk, b: bool, x: nat): TChunk {
    if b then c.(right := x) else c.(left := x)
  }

  /** A place in a bin's trie: the turns taken from its root. */
  datatype Pos = Pos(bin: nat, path: seq<bool>)

  type Places = map<nat, Pos>

  /** The turns a search for a size takes. */
  function PathOf(s: nat): (p: seq<bool>)
    ensures |p| == 64
  {
    BitsOf(SizeBits(TreeIndex(s), s), 64)
  }

  predicate LargeSize(s: nat) {
    MIN_LARGE_SIZE <= s < INDEXABLE
  }

  // ----- the shape -----

  /** A node lies on the path of its size, in the bin of its size. */
  ghost predicate NodeOk(mem: Memory, at: Places, n: nat) {
    && n in at && n in mem && n != 0 && LargeSize(mem[n].size)
    && at[n].bin == TreeIndex(mem[n].size) && at[n].path <= PathOf(mem[n].size)
  }

  ghost predicate ChildOk(mem: Memory, at: Places, n: nat, b: bool)
    requires n in mem && n in at
  {
    var c := Child(mem[n], b);
    c != 0 ==> c in at && c in mem && at[c] == Pos(at[n].bin, at[n].path + [b]) && mem[c].parent == Up(n)
  }

  ghost predicate ParentOk(mem: Memory, roots: seq<nat>, at: Places, n: nat)
    requires n in mem && n in at && |roots| == TREE_BINS && at[n].bin < TREE_BINS
  {
    var path := at[n].path;
    if path == [] then mem[n].parent == Bin && roots[at[n].bin] == n
    else
      && mem[n].parent.Up? && mem[n].parent.a in at && mem[n].parent.a in mem
      && at[mem[n].parent.a] == Pos(at[n].bin, path[..|path| - 1])
      && Child(mem[mem[n].parent.a], path[|path| - 1]) == n
  }

  /** What holds of a node, its parent and its children. */
  ghost predicate Good(mem: Memory, roots: seq<nat>, at: Places, n: nat) {
    && NodeOk(mem, at, n) && |roots| == TREE_BINS && at[n].bin < TREE_BINS && ParentOk(mem, roots, at, n)
    && ChildOk(mem, at, n, false) && ChildOk(mem, at, n, true)
  }

  ghost predicate RootsOk(roots: seq<nat>, at: Places) {
    && |roots| == TREE_BINS
    && forall i {:trigger roots[i]} ::
         0 <= i < TREE_BINS && roots[i] != 0 ==> roots[i] in at && at[roots[i]] == Pos(i, [])
  }

  ghost predicate SizesDiffer(mem: Memory, at: Places) {
    forall n, m {:trigger mem[n].size, mem[m].size} ::
      n in at && m in at && n in mem && m in mem && mem[n].size == mem[m].size ==> n == m
  }

  ghost predicate Tree(mem: Memory, roots: seq<nat>, at: Places) {
    && (forall n {:trigger Good(mem, roots, at, n)} :: n in at ==> Good(mem, roots, at, n))
    && RootsOk(roots, at) && SizesDiffer(mem, at)
  }

  lemma At(mem: Memory, roots: seq<nat>, at: Places, n: nat)
    requires Tree(mem, roots, at) && n in at
    ensures Good(mem, roots, at, n)
  {
  }

  lemma RootsCount(mem: Memory, roots: seq<nat>, at: Places)
    requires Tree(mem, roots, at)
    ensures |roots| == TREE_BINS
  {
  }

  /** No two nodes share a place. */
  lemma {:induction false} PlacesUnique(mem: Memory, roots: seq<nat>, at: Places, n: nat, m: nat)
    requires Tree(mem, roots, at) && n in at && m in at && at[n] == at[m]
    ensures n == m
    decreases |at[n].path|
  {
    At(mem, roots, at, n);
    At(mem, roots, at, m);
    if at[n].path != [] {
      PlacesUnique(mem, roots, at, mem[n].parent.a, mem[m].parent.a);
    }
  }

  /** Every place above a node is taken. */
  lemma {:induction false} Ancestor(mem: Memory, roots: seq<nat>, at: Places, n: nat, d: nat) returns (c: nat)
    requires Tree(mem, roots, at) && n in at && d <= |at[n].path|
    ensures c in at && at[c] == Pos(at[n].bin, at[n].path[..d])
    decreases |at[n].path|
  {
    var path := at[n].path;
    if d == |path| {
      c := n;
      assert path[..d] == path;
    } else {
      At(mem, roots, at, n);
      c := Ancestor(mem, roots, at, mem[n].parent.a, d);
      assert path[..|path| - 1][..d] == path[..d];
    }
  }

  /** A node below t is below one of t's children. */
  lemma Below(mem: Memory, roots: seq<nat>, at: Places, t: nat, n: nat) returns (b: bool)
    requires Tree(mem, roots, at) && t in at && n in at && n != t
    requires at[n].bin == at[t].bin && at[t].path <= at[n].path
    ensures t in mem && Child(mem[t], b) != 0 && Child(mem[t], b) in at
            && at[Child(mem[t], b)] == Pos(at[t].bin, at[t].path + [b])
    ensures at[t].path + [b] <= at[n].path
  {
    hide Tree, PathOf;
    var d := |at[t].path|;
    if d == |at[n].path| {
      assert at[t].path == at[n].path;
      PlacesUnique(mem, roots, at, t, n);
    }
    b := at[n].path[d];
    var c := Ancestor(mem, roots, at, n, d + 1);
    assert at[n].path[..d + 1] == at[t].path + [b];
    At(mem, roots, at, c);
    assert at[c].path[..d] == at[t].path;
    PlacesUnique(mem, roots, at, mem[c].parent.a, t);
    At(mem, roots, at, t);
  }

  /** If a node of the searched size is below t, the search goes on. */
  lemma GoesOn(mem: Memory, roots: seq<nat>, at: Places, t: nat, n: nat, s: nat)
    requires Tree(mem, roots, at) && t in at && n in at && n != t && n in mem && mem[n].size == s
    requires at[n].bin == at[t].bin && at[t].path <= at[n].path
    ensures t in mem && |at[t].path| < 64 && Child(mem[t], PathOf(s)[|at[t].path|]) != 0
  {
    hide Tree, PathOf;
    At(mem, roots, at, n);
    var b := Below(mem, roots, at, t, n);
    assert at[n].path[|at[t].path|] == (at[t].path + [b])[|at[t].path|];
    assert at[n].path[|at[t].path|] == PathOf(s)[|at[t].path|];
  }

  /** A nonempty bin has its root. */
  lemma RootThere(mem: Memory, roots: seq<nat>, at: Places, n: nat)
    requires Tree(mem, roots, at) && n in at
    ensures at[n].bin < TREE_BINS && roots[at[n].bin] != 0 && roots[at[n].bin] in at
            && at[roots[at[n].bin]] == Pos(at[n].bin, [])
  {
    At(mem, roots, at, n);
    var c := Ancestor(mem, roots, at, n, 0);
    assert at[n].path[..0] == [];
    At(mem, roots, at, c);
  }

  // ----- sizes and paths -----

  lemma SamePath(s: nat, t: nat)
    requires LargeSize(s) && LargeSize(t) && TreeIndex(s) == TreeIndex(t) && PathOf(s) == PathOf(t)
    ensures s == t
  {
    IndexRight(s);
    IndexRight(t);
    BitsSame(SizeBits(TreeIndex(s), s), SizeBits(TreeIndex(t), t));
    SizeBitsOrder(TreeIndex(s), s, t);
    SizeBitsOrder(TreeIndex(s), t, s);
  }

  /** Where two paths part, the left one is of the smaller size. */
  lemma PathsPart(s: nat, t: nat, d: nat)
    requires LargeSize(s) && LargeSize(t) && TreeIndex(s) == TreeIndex(t) && d < 64
    requires PathOf(s)[..d] == PathOf(t)[..d] && !PathOf(s)[d] && PathOf(t)[d]
    ensures s < t
  {
    hide BitsOf;
    IndexRight(s);
    IndexRight(t);
    var i := TreeIndex(s);
    BitsOrder(SizeBits(i, s), SizeBits(i, t), 64, d);
    SizeBitsOrder(i, s, t);
  }

  /** Everything in the left subtree of a place is smaller than everything in the right one. */
  lemma LeftSmaller(mem: Memory, roots: seq<nat>, at: Places, pos: Pos, n: nat, m: nat)
    requires Tree(mem, roots, at) && n in at && m in at && at[n].bin == pos.bin == at[m].bin
    requires pos.path + [false] <= at[n].path && pos.path + [true] <= at[m].path
    ensures n in mem && m in mem && mem[n].size < mem[m].size
  {
    hide PathOf;
    At(mem, roots, at, n);
    At(mem, roots, at, m);
    var d := |pos.path|;
    var p, q := PathOf(mem[n].size), PathOf(mem[m].size);
    assert pos.path + [false] <= p && pos.path + [true] <= q;
    assert p[..d] == pos.path == q[..d];
    assert p[d] == (pos.path + [false])[d] && q[d] == (pos.path + [true])[d];
    PathsPart(mem[n].size, mem[m].size, d);
  }

  /** A search that stands on t: a node with the size it is after is at t or below. */
  ghost predicate OnlyBelow(mem: Memory, at: Places, t: nat, s: nat)
    requires t in at
  {
    forall n {:trigger at[n]} ::
      n in at && n in mem && mem[n].size == s ==> at[n].bin == at[t].bin && at[t].path <= at[n].path
  }

  /** At a missing child the search has failed for good. */
  lemma NotThere(mem: Memory, roots: seq<nat>, at: Places, t: nat, s: nat)
    requires Tree(mem, roots, at) && t in at && t in mem && LargeSize(s) && TreeIndex(s) == at[t].bin
             && at[t].path <= PathOf(s)
    requires OnlyBelow(mem, at, t, s) && mem[t].size != s && |at[t].path| < 64
    requires Child(mem[t], PathOf(s)[|at[t].path|]) == 0
    ensures forall n {:trigger at[n]} :: n in at && n in mem ==> mem[n].size != s
  {
    hide PathOf, Tree;
    forall n | n in at && n in mem
      ensures mem[n].size != s
    {
      if mem[n].size == s {
        GoesOn(mem, roots, at, t, n, s);
      }
    }
  }

  /** Going down by the size's bit keeps the search right. */
  lemma SearchDown(mem: Memory, roots: seq<nat>, at: Places, t: nat, s: nat)
    requires Tree(mem, roots, at) && t in at && t in mem && LargeSize(s) && TreeIndex(s) == at[t].bin
             && at[t].path <= PathOf(s)
    requires OnlyBelow(mem, at, t, s) && mem[t].size != s
    ensures |at[t].path| < 64
    ensures var c := Child(mem[t], PathOf(s)[|at[t].path|]);
            c != 0 ==> c in at && c in mem && at[c].bin == at[t].bin && at[c].path <= PathOf(s)
                       && |at[c].path| == |at[t].path| + 1 && OnlyBelow(mem, at, c, s)
  {
    hide PathOf, Tree;
    At(mem, roots, at, t);
    if |at[t].path| == 64 {
      assert at[t].path == PathOf(s) && at[t].path == PathOf(mem[t].size);
      SamePath(s, mem[t].size);
    }
    var d := |at[t].path|;
    var c := Child(mem[t], PathOf(s)[d]);
    if c != 0 {
      assert ChildOk(mem, at, t, PathOf(s)[d]);
      assert at[c].path == at[t].path + [PathOf(s)[d]] == PathOf(s)[..d + 1];
      forall n | n in at && n in mem && mem[n].size == s
        ensures at[n].bin == at[c].bin && at[c].path <= at[n].path
      {
        At(mem, roots, at, n);
        var b := Below(mem, roots, at, t, n);
        assert at[n].path[d] == (at[t].path + [b])[d];
        assert at[n].path[d] == PathOf(s)[d];
      }
    }
  }

  lemma SearchRoot(mem: Memory, roots: seq<nat>, at: Places, s: nat)
    requires Tree(mem, roots, at) && LargeSize(s) && roots[TreeIndex(s)] != 0
    ensures var t := roots[TreeIndex(s)];
            t in at && t in mem && at[t] == Pos(TreeIndex(s), []) && at[t].path <= PathOf(s) && OnlyBelow(mem, at, t, s)
  {
    var t := roots[TreeIndex(s)];
    At(mem, roots, at, t);
    forall n | n in at && n in mem && mem[n].size == s
      ensures at[n].bin == at[t].bin && at[t].path <= at[n].path
    {
      At(mem, roots, at, n);
    }
  }
}
