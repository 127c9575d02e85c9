/** What each change of pointers does to the tries and to the rings of equal sizes. */
module TrieSteps {
  import opened TreeIndices
  import opened TrieTheory

  // ----- the trees -----

  /** Only sizes, children and parents of the nodes matter to the trees. */
  ghost predicate SameNode(c: TChunk, d: TChunk) {
    d.size == c.size && d.left == c.left && d.right == c.right && d.parent == c.parent
  }

  ghost predicate SameTree(mem: Memory, mem': Memory, at: Places) {
    forall n {:trigger mem'[n]} {:trigger at[n]} :: n in at ==> n in mem && n in mem' && SameNode(mem[n], mem'[n])
  }

  lemma TreeKept(mem: Memory, mem': Memory, roots: seq<nat>, at: Places)
    requires Tree(mem, roots, at) && SameTree(mem, mem', at)
    ensures Tree(mem', roots, at)
  {
    hide PathOf, TreeIndex, LargeSize;
    forall n | n in at
      ensures Good(mem', roots, at, n)
    {
      At(mem, roots, at, n);
    }
    hide Good;
    assert SizesDiffer(mem', at) by {
      forall n, m | n in at && m in at && n in mem' && m in mem' && mem'[n].size == mem'[m].size
        ensures n == m
      {
        assert mem[n].size == mem[m].size;
      }
    }
  }

  function Fresh(s: nat, x: nat, parent: Link): TChunk {
    TChunk(s, x, x, 0, 0, parent)
  }

  /** The first chunk of a bin becomes its root. */
  lemma AddRoot(mem: Memory, roots: seq<nat>, at: Places, x: nat, s: nat)
    requires Tree(mem, roots, at) && x != 0 && x !in mem && LargeSize(s) && roots[TreeIndex(s)] == 0
    ensures Tree(mem[x := Fresh(s, x, Bin)], roots[TreeIndex(s) := x], at[x := Pos(TreeIndex(s), [])])
  {
    hide PathOf, TreeIndex, LargeSize, Tree;
    RootsCount(mem, roots, at);
    var i := TreeIndex(s);
    var mem', roots', at' := mem[x := Fresh(s, x, Bin)], roots[i := x], at[x := Pos(i, [])];
    forall n | n in at
      ensures n in mem && mem[n].size != s && Good(mem', roots', at', n)
    {
      At(mem, roots, at, n);
      RootThere(mem, roots, at, n);
    }
    assert Good(mem', roots', at', x);
    hide Good;
    AddedTree(mem, roots, at, x, mem', roots', at');
  }

  /** One more node, of a new size. */
  lemma AddedTree(mem: Memory, roots: seq<nat>, at: Places, x: nat, mem': Memory, roots': seq<nat>, at': Places)
    requires Tree(mem, roots, at) && x !in at && x in at' && x in mem' && at' == at[x := at'[x]]
    requires forall n {:trigger mem'[n]} ::
               n in at ==> n in mem && n in mem' && mem'[n].size == mem[n].size && mem[n].size != mem'[x].size
    requires roots' == roots || (at'[x].bin < |roots| && roots' == roots[at'[x].bin := x] && at'[x].path == [])
    requires forall n {:trigger Good(mem', roots', at', n)} :: n in at' ==> Good(mem', roots', at', n)
    ensures Tree(mem', roots', at')
  {
    hide Good;
    assert SizesDiffer(mem', at') by {
      forall n, m | n in at' && m in at' && n in mem' && m in mem' && mem'[n].size == mem'[m].size
        ensures n == m
      {
        if n != x && m != x {
          assert mem[n].size == mem[m].size;
        }
      }
    }
  }

  /** A chunk of a new size is hung where its search ended. */
  lemma AddChild(mem: Memory, roots: seq<nat>, at: Places, t: nat, b: bool, x: nat, s: nat)
    requires Tree(mem, roots, at) && x != 0 && x !in mem && LargeSize(s) && t in at && t in mem && Child(mem[t], b) == 0
    requires TreeIndex(s) == at[t].bin && at[t].path + [b] <= PathOf(s)
    requires forall n {:trigger at[n]} :: n in at && n in mem ==> mem[n].size != s
    ensures Tree(mem[x := Fresh(s, x, Up(t))][t := WithChild(mem[t], b, x)], roots,
                 at[x := Pos(at[t].bin, at[t].path + [b])])
  {
    hide PathOf, TreeIndex, LargeSize, Tree;
    var mem', at' := mem[x := Fresh(s, x, Up(t))][t := WithChild(mem[t], b, x)],
      at[x := Pos(at[t].bin, at[t].path + [b])];
    At(mem, roots, at, t);
    if x in at {
      At(mem, roots, at, x);
    }
    forall n | n in at
      ensures n != x && n in mem && mem[n].size != s && Good(mem', roots, at', n)
    {
      At(mem, roots, at, n);
      AddChildNode(mem, roots, at, t, b, x, s, n);
    }
    AddChildNew(mem, roots, at, t, b, x, s);
    hide Good;
    AddedTree(mem, roots, at, x, mem', roots, at');
  }

  lemma AddChildNew(mem: Memory, roots: seq<nat>, at: Places, t: nat, b: bool, x: nat, s: nat)
    requires Good(mem, roots, at, t) && x != 0 && x !in mem && x !in at && LargeSize(s)
    requires TreeIndex(s) == at[t].bin && at[t].path + [b] <= PathOf(s)
    ensures Good(mem[x := Fresh(s, x, Up(t))][t := WithChild(mem[t], b, x)], roots,
                 at[x := Pos(at[t].bin, at[t].path + [b])], x)
  {
    hide PathOf, TreeIndex, LargeSize;
    var path := at[t].path + [b];
    assert path[..|path| - 1] == at[t].path;
  }

  lemma AddChildNode(mem: Memory, roots: seq<nat>, at: Places, t: nat, b: bool, x: nat, s: nat, n: nat)
    requires Good(mem, roots, at, n) && Good(mem, roots, at, t) && x != 0 && x !in mem && x !in at
             && Child(mem[t], b) == 0
    ensures Good(mem[x := Fresh(s, x, Up(t))][t := WithChild(mem[t], b, x)], roots,
                 at[x := Pos(at[t].bin, at[t].path + [b])], n)
  {
    hide PathOf, TreeIndex, LargeSize;
  }

  /** The memory and the roots after a leaf has been cut off. */
  function CutMemory(mem: Memory, x: nat): Memory
    requires x in mem && (mem[x].parent.Up? ==> mem[x].parent.a in mem)
  {
    if !mem[x].parent.Up? then mem
    else
      var p := mem[x].parent.a;
      mem[p := if mem[p].left == x then mem[p].(left := 0) else mem[p].(right := 0)]
  }

  function CutRoots(mem: Memory, roots: seq<nat>, x: nat, bin: nat): seq<nat>
    requires x in mem && bin < |roots|
  {
    if mem[x].parent.Up? then roots else roots[bin := 0]
  }

  /** A leaf can be taken out of its tree. */
  lemma CutLeaf(mem: Memory, roots: seq<nat>, at: Places, x: nat)
    requires Tree(mem, roots, at) && x in at && x in mem && mem[x].left == 0 && mem[x].right == 0
    ensures at[x].bin < |roots| && (mem[x].parent.Up? ==> mem[x].parent.a in mem)
    ensures Tree(CutMemory(mem, x), CutRoots(mem, roots, x, at[x].bin), at - {x})
  {
    hide PathOf, TreeIndex, LargeSize, Tree;
    At(mem, roots, at, x);
    var mem', roots', at' := CutMemory(mem, x), CutRoots(mem, roots, x, at[x].bin), at - {x};
    forall n | n in at'
      ensures n in mem && mem'[n].size == mem[n].size && Good(mem', roots', at', n)
    {
      CutNode(mem, roots, at, x, n);
    }
    hide Good;
    CutTree(mem, roots, at, x, mem', roots', at');
  }

  /** One node less. */
  lemma CutTree(mem: Memory, roots: seq<nat>, at: Places, x: nat, mem': Memory, roots': seq<nat>, at': Places)
    requires Tree(mem, roots, at) && x in at && at[x].bin < |roots| && at' == at - {x}
    requires forall n {:trigger mem'[n]} :: n in at' ==> n in mem && n in mem' && mem'[n].size == mem[n].size
    requires roots' == roots[at[x].bin := 0] || (roots' == roots && at[x].path != [])
    requires forall n {:trigger Good(mem', roots', at', n)} :: n in at' ==> Good(mem', roots', at', n)
    ensures Tree(mem', roots', at')
  {
    hide Good;
    assert SizesDiffer(mem', at') by {
      forall n, m | n in at' && m in at' && n in mem' && m in mem' && mem'[n].size == mem'[m].size
        ensures n == m
      {
        assert mem[n].size == mem[m].size;
      }
    }
  }

  lemma CutNode(mem: Memory, roots: seq<nat>, at: Places, x: nat, n: nat)
    requires Tree(mem, roots, at) && x in at && x in mem && mem[x].left == 0 && mem[x].right == 0 && n in at && n != x
    ensures at[x].bin < |roots| && (mem[x].parent.Up? ==> mem[x].parent.a in mem) && n in mem
    ensures CutMemory(mem, x)[n].size == mem[n].size
            && Good(CutMemory(mem, x), CutRoots(mem, roots, x, at[x].bin), at - {x}, n)
  {
    hide PathOf, TreeIndex, LargeSize, Tree, ChildOk, ParentOk;
    At(mem, roots, at, x);
    At(mem, roots, at, n);
    UpIn(mem, roots, at, x);
    CutParent(mem, roots, at, x, n);
    CutChild(mem, roots, at, x, n, false);
    CutChild(mem, roots, at, x, n, true);
  }

  lemma UpIn(mem: Memory, roots: seq<nat>, at: Places, x: nat)
    requires Good(mem, roots, at, x)
    ensures mem[x].parent.Up? ==> mem[x].parent.a in mem
  {
  }

  lemma CutParent(mem: Memory, roots: seq<nat>, at: Places, x: nat, n: nat)
    requires Tree(mem, roots, at) && Good(mem, roots, at, x) && Good(mem, roots, at, n) && mem[x].left == 0
             && mem[x].right == 0 && n != x
    requires mem[x].parent.Up? ==> mem[x].parent.a in mem
    ensures ParentOk(CutMemory(mem, x), CutRoots(mem, roots, x, at[x].bin), at - {x}, n)
  {
    hide PathOf, TreeIndex, LargeSize, Tree, ChildOk;
    if at[n].path != [] {
      var m := mem[n].parent.a;
      if mem[x].parent == Up(m) {
        At(mem, roots, at, m);
        OneSide(mem, at, m);
      }
    }
  }

  lemma CutChild(mem: Memory, roots: seq<nat>, at: Places, x: nat, n: nat, b: bool)
    requires Tree(mem, roots, at) && Good(mem, roots, at, x) && Good(mem, roots, at, n) && n != x
    requires mem[x].parent.Up? ==> mem[x].parent.a in mem
    ensures ChildOk(CutMemory(mem, x), at - {x}, n, b)
  {
    hide PathOf, TreeIndex, LargeSize, Tree, ParentOk;
    OneSide(mem, at, n);
    var c := Child(mem[n], b);
    if c != 0 && c == x {
      assert mem[x].parent == Up(n);
    }
  }

  /** A node's two children are different. */
  lemma OneSide(mem: Memory, at: Places, n: nat)
    requires n in at && n in mem && ChildOk(mem, at, n, false) && ChildOk(mem, at, n, true)
    ensures mem[n].left == mem[n].right ==> mem[n].left == 0
  {
    assert (at[n].path + [false])[|at[n].path|] != (at[n].path + [true])[|at[n].path|];
  }

  // ----- replacing a node by another chunk -----

  function Moved(a: nat, x: nat, r: nat): nat {
    if a == x then r else a
  }

  function MovedLink(l: Link, x: nat, r: nat): Link {
    if l == Up(x) then Up(r) else l
  }

  /** r stands where x stood, and whoever pointed to x points to r. */
  ghost predicate Replaced(mem: Memory, mem': Memory, at: Places, x: nat, r: nat)
    requires x in mem && forall n :: n in at ==> n in mem
  {
    && r in mem' && (forall n {:trigger at[n]} :: n in at && n != x ==> n in mem')
    && mem'[r].left == mem[x].left && mem'[r].right == mem[x].right && mem'[r].parent == mem[x].parent
    && (forall n {:trigger at[n]} :: n in at && n != x ==>
          && mem'[n].size == mem[n].size
          && mem'[n].left == Moved(mem[n].left, x, r) && mem'[n].right == Moved(mem[n].right, x, r)
          && mem'[n].parent == MovedLink(mem[n].parent, x, r))
  }

  lemma Replace(mem: Memory, mem': Memory, roots: seq<nat>, at: Places, x: nat, r: nat)
    requires Tree(mem, roots, at) && x in at && r !in at && r != 0
    requires forall n :: n in at ==> n in mem
    requires Replaced(mem, mem', at, x, r) && LargeSize(mem'[r].size) && TreeIndex(mem'[r].size) == at[x].bin
             && at[x].path <= PathOf(mem'[r].size)
    requires forall n {:trigger mem[n].size} :: n in at && n != x ==> mem[n].size != mem'[r].size
    ensures at[x].bin < |roots|
    ensures Tree(mem', if at[x].path == [] then roots[at[x].bin := r] else roots, (at - {x})[r := at[x]])
  {
    hide PathOf, TreeIndex, LargeSize, Tree;
    At(mem, roots, at, x);
    var roots', at' := if at[x].path == [] then roots[at[x].bin := r] else roots, (at - {x})[r := at[x]];
    forall n | n in at'
      ensures Good(mem', roots', at', n)
    {
      ReplacedNode(mem, mem', roots, at, x, r, n);
    }
    hide Good;
    ReplacedTree(mem, mem', roots, at, x, r, roots', at');
  }

  lemma ReplacedTree(mem: Memory, mem': Memory, roots: seq<nat>, at: Places, x: nat, r: nat, roots': seq<nat>,
                     at': Places)
    requires Tree(mem, roots, at) && x in at && r !in at && r != 0 && at[x].bin < |roots|
    requires forall n :: n in at ==> n in mem
    requires Replaced(mem, mem', at, x, r)
    requires forall n {:trigger mem[n].size} :: n in at && n != x ==> mem[n].size != mem'[r].size
    requires roots' == (if at[x].path == [] then roots[at[x].bin := r] else roots) && at' == (at - {x})[r := at[x]]
    requires at[x].path == [] ==> roots[at[x].bin] == x
    requires forall n {:trigger Good(mem', roots', at', n)} :: n in at' ==> Good(mem', roots', at', n)
    ensures Tree(mem', roots', at')
  {
    hide Good;
    assert SizesDiffer(mem', at') by {
      forall n, m | n in at' && m in at' && n in mem' && m in mem' && mem'[n].size == mem'[m].size
        ensures n == m
      {
        if n != r && m != r {
          assert n in at && m in at && mem[n].size == mem[m].size;
        }
      }
    }
    assert RootsOk(roots', at') by {
      forall i | 0 <= i < TREE_BINS && roots'[i] != 0
        ensures roots'[i] in at' && at'[roots'[i]] == Pos(i, [])
      {
        assert roots[i] == x ==> at[x] == Pos(i, []);
      }
    }
  }

  lemma ReplacedNode(mem: Memory, mem': Memory, roots: seq<nat>, at: Places, x: nat, r: nat, n: nat)
    requires Tree(mem, roots, at) && x in at && r !in at && r != 0 && (n in at || n == r) && n != x
    requires forall m :: m in at ==> m in mem
    requires Replaced(mem, mem', at, x, r) && LargeSize(mem'[r].size) && TreeIndex(mem'[r].size) == at[x].bin
             && at[x].path <= PathOf(mem'[r].size)
    ensures at[x].bin < |roots|
    ensures Good(mem', if at[x].path == [] then roots[at[x].bin := r] else roots, (at - {x})[r := at[x]], n)
  {
    hide PathOf, TreeIndex, LargeSize, Tree, ChildOk, ParentOk;
    var m := if n == r then x else n;
    At(mem, roots, at, x);
    At(mem, roots, at, m);
    ReplacedParent(mem, mem', roots, at, x, r, n);
    ReplacedChild(mem, mem', roots, at, x, r, n, false);
    ReplacedChild(mem, mem', roots, at, x, r, n, true);
  }

  lemma ReplacedParent(mem: Memory, mem': Memory, roots: seq<nat>, at: Places, x: nat, r: nat, n: nat)
    requires Tree(mem, roots, at) && Good(mem, roots, at, x) && r !in at && r != 0 && n != x
             && (n == r || Good(mem, roots, at, n))
    requires forall m :: m in at ==> m in mem
    requires Replaced(mem, mem', at, x, r)
    ensures n in mem' && ParentOk(mem', if at[x].path == [] then roots[at[x].bin := r]
                                  else roots, (at - {x})[r := at[x]], n)
  {
    hide PathOf, TreeIndex, LargeSize, Tree, ChildOk;
    var m := if n == r then x else n;
    if at[m].path != [] {
      At(mem, roots, at, mem[m].parent.a);
    }
  }

  lemma ReplacedChild(mem: Memory, mem': Memory, roots: seq<nat>, at: Places, x: nat, r: nat, n: nat, b: bool)
    requires Tree(mem, roots, at) && Good(mem, roots, at, x) && r !in at && r != 0 && n != x
             && (n == r || Good(mem, roots, at, n))
    requires forall m :: m in at ==> m in mem
    requires Replaced(mem, mem', at, x, r)
    ensures n in mem' && ChildOk(mem', (at - {x})[r := at[x]], n, b)
  {
    hide PathOf, TreeIndex, LargeSize, Tree, ParentOk;
  }

  // ----- the rings of equal sizes -----

  type Rings = map<nat, seq<nat>>

  function Succ(i: nat, n: nat): (j: nat)
    requires i < n
    ensures j < n
  {
    if i + 1 == n then 0 else i + 1
  }

  function Pred(i: nat, n: nat): (j: nat)
    requires i < n
    ensures j < n
  {
    if i == 0 then n - 1 else i - 1
  }

  ghost predicate NoRepeat(r: seq<nat>) {
    forall i, j {:trigger r[i], r[j]} :: 0 <= i < j < |r| ==> r[i] != r[j]
  }

  ghost predicate LinkAt(mem: Memory, r: seq<nat>, i: nat) {
    i < |r| && r[i] in mem && mem[r[i]].fd == r[Succ(i, |r|)] && mem[r[i]].bk == r[Pred(i, |r|)]
  }

  /** The chunks of r are linked in a circle, forwards and backwards. */
  ghost predicate Linked(mem: Memory, r: seq<nat>) {
    NoRepeat(r) && forall i: nat {:trigger LinkAt(mem, r, i)} :: i < |r| ==> LinkAt(mem, r, i)
  }

  /** A member of the ring of h. */
  ghost predicate MemberOk(mem: Memory, head: map<nat, nat>, h: nat, r: seq<nat>, i: nat)
    requires h in mem
  {
    && i < |r| && r[i] in mem && r[i] in head && head[r[i]] == h && mem[r[i]].size == mem[h].size
    && (i > 0 ==> mem[r[i]].left == 0 && mem[r[i]].right == 0 && mem[r[i]].parent == None)
  }

  /** The ring of a tree node: it comes first, and the others are outside the tree. */
  ghost predicate RingOk(mem: Memory, head: map<nat, nat>, h: nat, r: seq<nat>) {
    && r != [] && r[0] == h && h in mem && Linked(mem, r)
    && forall i: nat {:trigger MemberOk(mem, head, h, r, i)} :: i < |r| ==> MemberOk(mem, head, h, r, i)
  }

  ghost predicate InRing(at: Places, rings: Rings, head: map<nat, nat>, x: nat) {
    x in head && head[x] in at && head[x] in rings && x in rings[head[x]]
  }

  ghost predicate RingAt(mem: Memory, rings: Rings, head: map<nat, nat>, h: nat) {
    h in rings && RingOk(mem, head, h, rings[h])
  }

  /** Every chunk is in the ring of exactly one tree node. */
  ghost predicate Rung(mem: Memory, at: Places, rings: Rings, head: map<nat, nat>) {
    && rings.Keys == at.Keys && head.Keys == mem.Keys
    && (forall x {:trigger InRing(at, rings, head, x)} :: x in mem ==> InRing(at, rings, head, x))
    && (forall h {:trigger RingAt(mem, rings, head, h)} :: h in at ==> RingAt(mem, rings, head, h))
  }

  lemma RingOf(mem: Memory, at: Places, rings: Rings, head: map<nat, nat>, h: nat)
    requires Rung(mem, at, rings, head) && h in at
    ensures h in rings && RingOk(mem, head, h, rings[h])
  {
    assert RingAt(mem, rings, head, h);
  }

  lemma HeadOf(mem: Memory, at: Places, rings: Rings, head: map<nat, nat>, x: nat)
    requires Rung(mem, at, rings, head) && x in mem
    ensures x in head && head[x] in at && head[x] in rings && x in rings[head[x]]
  {
    assert InRing(at, rings, head, x);
  }

  /** What a ring depends on: links, sizes, and that its later members are outside the tree. */
  ghost predicate SameMember(c: TChunk, d: TChunk, first: bool) {
    d.fd == c.fd && d.bk == c.bk && d.size == c.size && (!first ==> d == c)
  }

  lemma RingKept(mem: Memory, mem': Memory, head: map<nat, nat>, head': map<nat, nat>, h: nat, r: seq<nat>)
    requires RingOk(mem, head, h, r)
    requires forall i: nat {:trigger r[i]} :: i < |r| ==>
               r[i] in mem && r[i] in mem' && SameMember(mem[r[i]], mem'[r[i]], i == 0) && r[i] in head'
                 && head'[r[i]] == h
    ensures RingOk(mem', head', h, r)
  {
    forall i: nat | i < |r|
      ensures LinkAt(mem', r, i) && MemberOk(mem', head', h, r, i)
    {
      assert LinkAt(mem, r, i) && MemberOk(mem, head, h, r, i);
    }
  }

  /** Where a chunk stands in a ring. */
  lemma Standing(r: seq<nat>, x: nat) returns (i: nat)
    requires x in r
    ensures i < |r| && r[i] == x
  {
    i :| 0 <= i < |r| && r[i] == x;
  }

  function LinkIn(mem: Memory, t: nat, x: nat, s: nat): Memory
    requires t in mem && mem[t].fd in mem
  {
    var f := mem[t].fd;
    var m := mem[x := TChunk(s, f, t, 0, 0, None)];
    var m2 := m[t := m[t].(fd := x)];
    m2[f := m2[f].(bk := x)]
  }

  /** A chunk of a size that is there joins the ring, right after the tree node. */
  lemma JoinRing(mem: Memory, head: map<nat, nat>, t: nat, r: seq<nat>, x: nat, s: nat)
    requires RingOk(mem, head, t, r) && x !in mem && mem[t].size == s
    ensures mem[t].fd in mem && RingOk(LinkIn(mem, t, x, s), head[x := t], t, [t, x] + r[1..])
  {
    var n := |r|;
    assert LinkAt(mem, r, 0);
    assert MemberOk(mem, head, t, r, 0) && MemberOk(mem, head, t, r, Succ(0, n));
    var mem', head', r' := LinkIn(mem, t, x, s), head[x := t], [t, x] + r[1..];
    forall i: nat | i < |r'|
      ensures LinkAt(mem', r', i)
      ensures MemberOk(mem', head', t, r', i)
    {
      if i >= 2 {
        assert r'[i] == r[i - 1] && LinkAt(mem, r, i - 1) && MemberOk(mem, head, t, r, i - 1);
      }
    }
    assert NoRepeat(r') by {
      forall i, j | 0 <= i < j < |r'|
        ensures r'[i] != r'[j]
      {
        if j >= 2 {
          assert r'[j] == r[j - 1] && LinkAt(mem, r, j - 1);
        }
      }
    }
  }

  function LinkOut(mem: Memory, x: nat): Memory
    requires x in mem && mem[x].fd in mem && mem[x].bk in mem
  {
    var f, b := mem[x].fd, mem[x].bk;
    var m := mem[f := mem[f].(bk := b)];
    m[b := m[b].(fd := f)]
  }

  function DropAt(r: seq<nat>, i: nat): (r': seq<nat>)
    requires i < |r|
    ensures |r'| == |r| - 1 && forall k :: 0 <= k < |r'| ==> r'[k] == if k < i then r[k] else r[k + 1]
  {
    r[..i] + r[i + 1..]
  }

  lemma DropDistinct(r: seq<nat>, i: nat)
    requires NoRepeat(r) && i < |r|
    ensures NoRepeat(DropAt(r, i))
  {
    var r' := DropAt(r, i);
    forall j, k | 0 <= j < k < |r'|
      ensures r'[j] != r'[k]
    {
      assert r'[j] == r[if j < i then j else j + 1] && r'[k] == r[if k < i then k else k + 1];
    }
  }

  /** Taking a chunk out of a circle of two or more. */
  lemma Unlinked(mem: Memory, r: seq<nat>, i: nat)
    requires Linked(mem, r) && i < |r| && |r| >= 2
    ensures r[i] in mem && mem[r[i]].fd in mem && mem[r[i]].bk in mem && Linked(LinkOut(mem, r[i]), DropAt(r, i))
  {
    hide NoRepeat, LinkOut, DropAt;
    var n := |r|;
    assert LinkAt(mem, r, i) && LinkAt(mem, r, Succ(i, n)) && LinkAt(mem, r, Pred(i, n));
    var mem', r' := LinkOut(mem, r[i]), DropAt(r, i);
    DropDistinct(r, i);
    forall k: nat | k < n - 1
      ensures LinkAt(mem', r', k)
    {
      var j := if k < i then k else k + 1;
      assert LinkAt(mem, r, j);
      UnlinkedAt(mem, r, i, j, k);
    }
  }

  lemma UnlinkedAt(mem: Memory, r: seq<nat>, i: nat, j: nat, k: nat)
    requires NoRepeat(r) && i < |r| && |r| >= 2 && LinkAt(mem, r, i) && LinkAt(mem, r, j) && i != j
             && k == if j < i then j else j - 1
    requires LinkAt(mem, r, Succ(i, |r|)) && LinkAt(mem, r, Pred(i, |r|))
    ensures LinkAt(LinkOut(mem, r[i]), DropAt(r, i), k)
  {
    hide LinkOut, DropAt;
    var n := |r|;
    var f, b := Succ(i, n), Pred(i, n);
    assert r[j] == r[f] <==> j == f;
    assert r[j] == r[b] <==> j == b;
    DropNeighbours(r, i, j, k);
    LinkOutAt(mem, r[i], r[j]);
  }

  lemma DropNeighbours(r: seq<nat>, i: nat, j: nat, k: nat)
    requires i < |r| && j < |r| && |r| >= 2 && i != j && k == if j < i then j else j - 1
    ensures var n, r' := |r|, DropAt(r, i);
            && k < |r'| == n - 1 && r'[k] == r[j]
            && r'[Succ(k, n - 1)] == r[if j == Pred(i, n) then Succ(i, n) else Succ(j, n)]
            && r'[Pred(k, n - 1)] == r[if j == Succ(i, n) then Pred(i, n) else Pred(j, n)]
  {
  }

  lemma LinkOutAt(mem: Memory, x: nat, y: nat)
    requires x in mem && mem[x].fd in mem && mem[x].bk in mem && y in mem
    ensures var m := LinkOut(mem, x);
            && y in m && m[y].fd == (if y == mem[x].bk then mem[x].fd else mem[y].fd)
            && m[y].bk == (if y == mem[x].fd then mem[x].bk else mem[y].bk)
  {
  }

  /** A circle can start from its last chunk. */
  lemma Rotated(mem: Memory, r: seq<nat>)
    requires Linked(mem, r) && r != []
    ensures Linked(mem, [r[|r| - 1]] + r[..|r| - 1])
  {
    var n, r' := |r|, [r[|r| - 1]] + r[..|r| - 1];
    forall k: nat | k < n
      ensures LinkAt(mem, r', k)
    {
      assert LinkAt(mem, r, Pred(k, n));
    }
  }
}
