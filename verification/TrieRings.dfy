/** The rings of equal sizes beside the tries, and putting one chunk into the place of another. */
module TrieRings {
  import opened TreeIndices
  import opened TrieTheory
  import opened TrieSteps

  ghost function SizesOf(mem: Memory): map<nat, nat> {
    map x | x in mem :: mem[x].size
  }

  /** The top bit of the shifted word is the next turn. */
  lemma TurnIs(s: nat, d: nat)
    requires d < 64
    ensures PathOf(s)[d] <==> Shifted(SizeBits(TreeIndex(s), s), d) >= HALF
  {
    ShiftedBit(SizeBits(TreeIndex(s), s), 64, d);
  }

  /** Chunks that wait in a ring are not in the tree. */
  lemma Outside(mem: Memory, roots: seq<nat>, at: Places, n: nat)
    requires Tree(mem, roots, at) && n in at
    ensures n in mem && mem[n].parent != None
  {
    At(mem, roots, at, n);
  }

  /** Every member of every ring keeps its links, and those outside the tree keep everything. */
  ghost predicate RingsSame(mem: Memory, mem': Memory, at: Places) {
    forall y {:trigger mem'[y]} :: y in mem ==> y in mem' && SameMember(mem[y], mem'[y], y in at)
  }

  lemma AddSingle(mem: Memory, roots: seq<nat>, at: Places, rings: Rings, head: map<nat, nat>,
                  mem': Memory, at': Places, x: nat, s: nat)
    requires Tree(mem, roots, at) && Rung(mem, at, rings, head) && x !in mem && x in mem' && x in at'
    requires at' == at[x := at'[x]] && mem'.Keys == mem.Keys + {x} && RingsSame(mem, mem', at)
    requires mem'[x].fd == x && mem'[x].bk == x && mem'[x].size == s
    ensures Rung(mem', at', rings[x := [x]], head[x := x])
  {
    hide Tree, RingOk, SameMember;
    var rings', head' := rings[x := [x]], head[x := x];
    if x in at {
      Outside(mem, roots, at, x);
    }
    forall h | h in at'
      ensures RingAt(mem', rings', head', h)
    {
      if h != x {
        RingOf(mem, at, rings, head, h);
        RingMembers(mem, roots, at, head, h, rings[h]);
        RingKept(mem, mem', head, head', h, rings[h]);
      } else {
        Alone(mem', head', x);
      }
    }
    forall y | y in mem'
      ensures InRing(at', rings', head', y)
    {
      if y != x {
        HeadOf(mem, at, rings, head, y);
      }
    }
  }

  lemma Alone(mem: Memory, head: map<nat, nat>, x: nat)
    requires x in mem && mem[x].fd == x && mem[x].bk == x && x in head && head[x] == x
    ensures RingOk(mem, head, x, [x])
  {
    assert LinkAt(mem, [x], 0) && MemberOk(mem, head, x, [x], 0);
  }

  /** The first of a ring is in the tree and the others are not. */
  lemma RingMembers(mem: Memory, roots: seq<nat>, at: Places, head: map<nat, nat>, h: nat, r: seq<nat>)
    requires Tree(mem, roots, at) && RingOk(mem, head, h, r) && h in at
    ensures forall i: nat {:trigger r[i]} ::
              i < |r| ==> r[i] in mem && r[i] in head && head[r[i]] == h && (r[i] in at <==> i == 0)
  {
    hide Tree;
    forall i: nat | i < |r|
      ensures r[i] in mem && r[i] in head && head[r[i]] == h && (r[i] in at <==> i == 0)
    {
      assert MemberOk(mem, head, h, r, i);
      if r[i] in at {
        Outside(mem, roots, at, r[i]);
      }
    }
  }

  lemma JoinHere(mem: Memory, at: Places, rings: Rings, head: map<nat, nat>, t: nat, x: nat, s: nat)
    requires Rung(mem, at, rings, head) && t in at && t in mem && x !in mem && mem[t].size == s
    ensures t in rings && rings[t] != [] && rings[t][0] == t && mem[t].fd in mem
    ensures RingAt(LinkIn(mem, t, x, s), rings[t := [t, x] + rings[t][1..]], head[x := t], t)
  {
    hide Rung, RingOk, LinkIn;
    RingOf(mem, at, rings, head, t);
    JoinRing(mem, head, t, rings[t], x, s);
    NextInRing(mem, head, t, rings[t]);
  }

  lemma JoinRung(mem: Memory, roots: seq<nat>, at: Places, rings: Rings, head: map<nat, nat>, t: nat, x: nat, s: nat)
    requires Tree(mem, roots, at) && Rung(mem, at, rings, head) && t in at && t in mem && x !in mem && mem[t].size == s
    ensures t in rings && rings[t] != [] && mem[t].fd in mem && SameTree(mem, LinkIn(mem, t, x, s), at)
    ensures Rung(LinkIn(mem, t, x, s), at, rings[t := [t, x] + rings[t][1..]], head[x := t])
  {
    hide Tree, RingOk, Rung, LinkIn, RingAt, InRing, SameTree;
    JoinHere(mem, at, rings, head, t, x, s);
    RungKeys(mem, at, rings, head);
    JoinNodes(mem, roots, at, head, t, x, s);
    JoinKeys(mem, t, x, s);
    var mem', rings', head' := LinkIn(mem, t, x, s), rings[t := [t, x] + rings[t][1..]], head[x := t];
    forall h | h in at
      ensures RingAt(mem', rings', head', h)
    {
      if h != t {
        JoinOther(mem, roots, at, rings, head, t, x, s, h);
      }
    }
    forall y | y in mem'
      ensures InRing(at, rings', head', y)
    {
      JoinMember(mem, at, rings, head, t, x, s, y);
    }
    RungFrom(mem', at, rings', head');
  }

  lemma RungFrom(mem: Memory, at: Places, rings: Rings, head: map<nat, nat>)
    requires rings.Keys == at.Keys && head.Keys == mem.Keys
    requires forall x {:trigger InRing(at, rings, head, x)} :: x in mem ==> InRing(at, rings, head, x)
    requires forall h {:trigger RingAt(mem, rings, head, h)} :: h in at ==> RingAt(mem, rings, head, h)
    ensures Rung(mem, at, rings, head)
  {
  }

  lemma JoinKeys(mem: Memory, t: nat, x: nat, s: nat)
    requires t in mem && mem[t].fd in mem && x !in mem
    ensures LinkIn(mem, t, x, s).Keys == mem.Keys + {x}
    ensures forall y {:trigger LinkIn(mem, t, x, s)[y]} ::
              y in mem && y != t && y != mem[t].fd ==> LinkIn(mem, t, x, s)[y] == mem[y]
  {
  }

  lemma JoinNodes(mem: Memory, roots: seq<nat>, at: Places, head: map<nat, nat>, t: nat, x: nat, s: nat)
    requires Tree(mem, roots, at) && t in mem && x !in mem && mem[t].fd in mem
    ensures SameTree(mem, LinkIn(mem, t, x, s), at)
  {
    hide Tree;
    forall n | n in at
      ensures n in mem && SameNode(mem[n], LinkIn(mem, t, x, s)[n])
    {
      Outside(mem, roots, at, n);
    }
  }

  lemma JoinOther(mem: Memory, roots: seq<nat>, at: Places, rings: Rings, head: map<nat, nat>, t: nat, x: nat,
                  s: nat, h: nat)
    requires Tree(mem, roots, at) && Rung(mem, at, rings, head) && t in at && t in mem && x !in mem && h in at && h != t
    ensures mem[t].fd in mem && t in rings && rings[t] != []
    ensures RingAt(LinkIn(mem, t, x, s), rings[t := [t, x] + rings[t][1..]], head[x := t], h)
  {
    hide Tree, RingOk, Rung, LinkIn;
    RingOf(mem, at, rings, head, t);
    RingMembers(mem, roots, at, head, t, rings[t]);
    NextInRing(mem, head, t, rings[t]);
    JoinKeys(mem, t, x, s);
    RingOf(mem, at, rings, head, h);
    RingMembers(mem, roots, at, head, h, rings[h]);
    RingKept(mem, LinkIn(mem, t, x, s), head, head[x := t], h, rings[h]);
  }

  lemma JoinMember(mem: Memory, at: Places, rings: Rings, head: map<nat, nat>, t: nat, x: nat, s: nat, y: nat)
    requires Rung(mem, at, rings, head) && t in at && t in rings && rings[t] != [] && rings[t][0] == t
             && (y in mem || y == x)
    ensures InRing(at, rings[t := [t, x] + rings[t][1..]], head[x := t], y)
  {
    hide Rung;
    var r' := [t, x] + rings[t][1..];
    if y == x {
      assert r'[1] == x;
    } else {
      HeadOf(mem, at, rings, head, y);
      if head[y] == t {
        var i := Standing(rings[t], y);
        assert r'[if i == 0 then 0 else i + 1] == y;
      }
    }
  }

  lemma RungKeys(mem: Memory, at: Places, rings: Rings, head: map<nat, nat>)
    requires Rung(mem, at, rings, head)
    ensures rings.Keys == at.Keys && head.Keys == mem.Keys
  {
  }

  lemma NextInRing(mem: Memory, head: map<nat, nat>, h: nat, r: seq<nat>)
    requires RingOk(mem, head, h, r)
    ensures r != [] && r[0] == h && h in mem && mem[h].fd in r && mem[h].bk in r
  {
    assert LinkAt(mem, r, 0);
  }

  // ----- taking a chunk out -----

  /** Everything but x keeps its ring links of m, and what is outside the tree (and is not r) keeps everything. */
  ghost predicate DroppedFrom(m: Memory, mem': Memory, at: Places, x: nat, r: nat) {
    && mem'.Keys == m.Keys - {x}
    && forall y {:trigger mem'[y]} :: y in mem' ==> y in m && SameMember(m[y], mem'[y], y in at || y == r)
  }

  /** A chunk that was alone in its ring. */
  lemma DropSingle(mem: Memory, roots: seq<nat>, at: Places, rings: Rings, head: map<nat, nat>, mem': Memory,
                   at': Places, x: nat)
    requires Tree(mem, roots, at) && Rung(mem, at, rings, head) && x in at && x in rings && rings[x] == [x]
    requires DroppedFrom(mem, mem', at, x, x) && at'.Keys == at.Keys - {x}
    ensures Rung(mem', at', rings - {x}, head - {x})
  {
    hide Tree, RingOk, Rung, SameMember;
    RungKeys(mem, at, rings, head);
    var rings', head' := rings - {x}, head - {x};
    forall h | h in at'
      ensures RingAt(mem', rings', head', h)
    {
      RingOf(mem, at, rings, head, h);
      RingMembers(mem, roots, at, head, h, rings[h]);
      RingOf(mem, at, rings, head, x);
      RingMembers(mem, roots, at, head, x, rings[x]);
      assert rings[x][0] == x;
      RingKept(mem, mem', head, head', h, rings[h]);
    }
    forall y | y in mem'
      ensures InRing(at', rings', head', y)
    {
      HeadOf(mem, at, rings, head, y);
      if head[y] == x {
        var i := Standing(rings[x], y);
      }
    }
    RungFrom(mem', at', rings', head');
  }

  /** The neighbours of a chunk in a larger ring. */
  lemma Neighbours(mem: Memory, roots: seq<nat>, at: Places, rings: Rings, head: map<nat, nat>, x: nat) returns (i: nat)
    requires Tree(mem, roots, at) && Rung(mem, at, rings, head) && x in mem && mem[x].bk != x
    ensures x in head && head[x] in at && head[x] in rings
    ensures var r := rings[head[x]];
            && i < |r| && r[i] == x && |r| >= 2 && Linked(mem, r) && (x in at <==> i == 0)
            && mem[x].fd == r[Succ(i, |r|)] && mem[x].bk == r[Pred(i, |r|)] && mem[x].fd in mem && mem[x].bk in mem
  {
    hide Tree, Rung;
    HeadOf(mem, at, rings, head, x);
    RingOf(mem, at, rings, head, head[x]);
    var r := rings[head[x]];
    i := Standing(r, x);
    RingMembers(mem, roots, at, head, head[x], r);
    assert LinkAt(mem, r, i) && LinkAt(mem, r, Succ(i, |r|)) && LinkAt(mem, r, Pred(i, |r|));
  }

  lemma LinkedStays(m: Memory, mem': Memory, at: Places, x: nat, b: nat, r: seq<nat>)
    requires Linked(m, r) && DroppedFrom(m, mem', at, x, b) && x !in r
    ensures Linked(mem', r)
  {
    forall i: nat | i < |r|
      ensures LinkAt(mem', r, i)
    {
      assert LinkAt(m, r, i);
      assert r[i] != x && r[i] in mem';
    }
  }

  /** Rings other than that of x do not notice. */
  lemma OtherRing(mem: Memory, roots: seq<nat>, at: Places, rings: Rings, head: map<nat, nat>, mem': Memory,
                  head': map<nat, nat>,
                  x: nat, b: nat, h: nat)
    requires Tree(mem, roots, at) && Rung(mem, at, rings, head) && x in mem && mem[x].bk != x && mem[x].fd in mem
             && mem[x].bk in mem
    requires DroppedFrom(LinkOut(mem, x), mem', at, x, b) && x in head && b in head && head[b] == head[x]
    requires h in at && h != head[x]
    requires forall y {:trigger head[y]} :: y in head && head[y] == h ==> y in head' && head'[y] == h
    ensures h in rings && RingOk(mem', head', h, rings[h])
  {
    hide Tree, Rung, RingOk, SameMember, LinkOut;
    var i := Neighbours(mem, roots, at, rings, head, x);
    RingOf(mem, at, rings, head, head[x]);
    RingMembers(mem, roots, at, head, head[x], rings[head[x]]);
    assert head[mem[x].fd] == head[x] && head[mem[x].bk] == head[x];
    LinkOutFacts(mem, x);
    RingOf(mem, at, rings, head, h);
    RingMembers(mem, roots, at, head, h, rings[h]);
    var r := rings[h];
    forall k: nat | k < |r|
      ensures r[k] in mem && r[k] in mem' && SameMember(mem[r[k]], mem'[r[k]], k == 0) && r[k] in head'
              && head'[r[k]] == h
    {
      assert r[k] in mem' && LinkOut(mem, x)[r[k]] == mem[r[k]];
    }
    RingKept(mem, mem', head, head', h, r);
  }

  lemma LeftOut(mem: Memory, at: Places, x: nat)
    requires x in mem && mem[x].fd in mem && mem[x].bk in mem
    ensures DroppedFrom(LinkOut(mem, x), LinkOut(mem, x) - {x}, at, x, x)
  {
    hide LinkOut;
    LinkOutFacts(mem, x);
  }

  /** The others stay in their rings when x, at i of its ring, goes. */
  lemma LeaveMember(mem: Memory, at: Places, rings: Rings, head: map<nat, nat>, h: nat, i: nat, x: nat, y: nat)
    requires Rung(mem, at, rings, head) && x in mem && x in head && head[x] == h && y in mem && y != x
    requires h in rings && i < |rings[h]| && rings[h][i] == x
    ensures InRing(at, rings[h := DropAt(rings[h], i)], head - {x}, y)
  {
    hide Rung;
    HeadOf(mem, at, rings, head, y);
    if head[y] == h {
      var j := Standing(rings[h], y);
      var r' := DropAt(rings[h], i);
      assert r'[if j < i then j else j - 1] == y;
    }
  }

  lemma LeaveRingAt(mem: Memory, roots: seq<nat>, at: Places, rings: Rings, head: map<nat, nat>, x: nat, i: nat, k: nat)
    requires Tree(mem, roots, at) && Rung(mem, at, rings, head) && x in mem && x !in at && mem[x].bk != x && k in at
    requires x in head && head[x] in at && head[x] in rings && mem[x].fd in mem && mem[x].bk in mem
    requires var r := rings[head[x]]; 0 < i < |r| && r[i] == x && |r| >= 2 && Linked(LinkOut(mem, x), DropAt(r, i))
    ensures RingAt(LinkOut(mem, x) - {x}, rings[head[x] := DropAt(rings[head[x]], i)], head - {x}, k)
  {
    hide Tree, Rung, RingOk, LinkOut, Linked, DroppedFrom, DropAt;
    var mem' := LinkOut(mem, x) - {x};
    LeftOut(mem, at, x);
    if k == head[x] {
      StillRing(mem, roots, at, rings, head, mem', x, i);
    } else {
      OtherRing(mem, roots, at, rings, head, mem', head - {x}, x, x, k);
    }
  }

  /** A chunk outside the tree leaves its ring. */
  lemma LeaveRing(mem: Memory, roots: seq<nat>, at: Places, rings: Rings, head: map<nat, nat>, x: nat) returns (i: nat)
    requires Tree(mem, roots, at) && Rung(mem, at, rings, head) && x in mem && x !in at && mem[x].bk != x
    ensures mem[x].fd in mem && mem[x].bk in mem && x in head && head[x] in rings && i < |rings[head[x]]|
    ensures SameTree(mem, LinkOut(mem, x) - {x}, at)
    ensures Rung(LinkOut(mem, x) - {x}, at, rings[head[x] := DropAt(rings[head[x]], i)], head - {x})
  {
    hide Tree, Rung, RingOk, LinkOut, Linked, DroppedFrom, SameTree, RingAt, InRing, DropAt;
    i := Neighbours(mem, roots, at, rings, head, x);
    var h := head[x];
    var r := rings[h];
    var r' := DropAt(r, i);
    RungKeys(mem, at, rings, head);
    Unlinked(mem, r, i);
    LinkOutFacts(mem, x);
    var mem', rings', head' := LinkOut(mem, x) - {x}, rings[h := r'], head - {x};
    LeaveNodes(mem, roots, at, x);
    forall k | k in at
      ensures RingAt(mem', rings', head', k)
    {
      LeaveRingAt(mem, roots, at, rings, head, x, i, k);
    }
    forall y | y in mem'
      ensures InRing(at, rings', head', y)
    {
      LeaveMember(mem, at, rings, head, h, i, x, y);
    }
    RungFrom(mem', at, rings', head');
  }

  lemma LeaveNodes(mem: Memory, roots: seq<nat>, at: Places, x: nat)
    requires Tree(mem, roots, at) && x in mem && mem[x].fd in mem && mem[x].bk in mem
    ensures SameTree(mem, LinkOut(mem, x), at) && (x !in at ==> SameTree(mem, LinkOut(mem, x) - {x}, at))
  {
    hide Tree;
    forall n | n in at
      ensures n in mem
    {
      Outside(mem, roots, at, n);
    }
  }

  lemma LinkOutFacts(mem: Memory, x: nat)
    requires x in mem && mem[x].fd in mem && mem[x].bk in mem
    ensures LinkOut(mem, x).Keys == mem.Keys
    ensures forall y {:trigger LinkOut(mem, x)[y]} :: y in mem ==>
              SameNode(mem[y], LinkOut(mem, x)[y])
                && (y != mem[x].fd && y != mem[x].bk ==> LinkOut(mem, x)[y] == mem[y])
  {
  }

  lemma StillRing(mem: Memory, roots: seq<nat>, at: Places, rings: Rings, head: map<nat, nat>, mem': Memory, x: nat,
                  i: nat)
    requires Tree(mem, roots, at) && Rung(mem, at, rings, head) && x in mem && x !in at && x in head && head[x] in at
             && head[x] in rings
    requires mem[x].fd in mem && mem[x].bk in mem && mem' == LinkOut(mem, x) - {x}
    requires var r := rings[head[x]]; 0 < i < |r| && r[i] == x && |r| >= 2 && Linked(LinkOut(mem, x), DropAt(r, i))
    ensures RingOk(mem', head - {x}, head[x], DropAt(rings[head[x]], i))
  {
    hide Tree, Rung, LinkOut;
    var h := head[x];
    var r, r' := rings[h], DropAt(rings[h], i);
    RingOf(mem, at, rings, head, h);
    LinkOutFacts(mem, x);
    assert DroppedFrom(LinkOut(mem, x), mem', at, x, x);
    assert x !in r' by {
      forall k | 0 <= k < |r'|
        ensures r'[k] != x
      {
        assert r'[k] == r[if k < i then k else k + 1];
      }
    }
    LinkedStays(LinkOut(mem, x), mem', at, x, x, r');
    forall k: nat | k < |r'|
      ensures MemberOk(mem', head - {x}, h, r', k)
    {
      assert MemberOk(mem, head, h, r, if k < i then k else k + 1);
      assert r'[k] in r' && r'[k] != x;
    }
  }

  /** The chunks of the ring of x get a new head. */
  function Headed(head: map<nat, nat>, x: nat, r: nat): map<nat, nat> {
    map y | y in head && y != x :: if head[y] == x then r else head[y]
  }

  /** The last of its ring takes the place of a tree node that leaves. */
  lemma PassHead(mem: Memory, roots: seq<nat>, at: Places, rings: Rings, head: map<nat, nat>, mem': Memory, x: nat)
    requires Tree(mem, roots, at) && Rung(mem, at, rings, head) && x in at && x in mem && mem[x].bk != x
    requires mem[x].fd in mem && mem[x].bk in mem && DroppedFrom(LinkOut(mem, x), mem', at, x, mem[x].bk)
    ensures x in rings && |rings[x]| >= 2 && rings[x][|rings[x]| - 1] == mem[x].bk
    ensures var b, r := mem[x].bk, rings[x];
            Rung(mem', (at - {x})[b := at[x]], (rings - {x})[b := [b] + r[1..|r| - 1]], Headed(head, x, b))
  {
    hide Tree, Rung, RingOk, LinkOut, Linked, DroppedFrom;
    var i := Neighbours(mem, roots, at, rings, head, x);
    FirstHeads(mem, roots, at, rings, head, x);
    RingOf(mem, at, rings, head, x);
    RingMembers(mem, roots, at, head, x, rings[x]);
    var b, r := mem[x].bk, rings[x];
    var r' := [b] + r[1..|r| - 1];
    RungKeys(mem, at, rings, head);
    Unlinked(mem, r, 0);
    var at', rings', head' := (at - {x})[b := at[x]], (rings - {x})[b := r'], Headed(head, x, b);
    assert b !in at;
    forall k | k in at'
      ensures RingAt(mem', rings', head', k)
    {
      if k == b {
        NewRing(mem, roots, at, rings, head, mem', x);
      } else {
        OtherRing(mem, roots, at, rings, head, mem', head', x, b, k);
      }
    }
    DroppedKeys(mem, mem', at, x, b);
    forall y | y in mem'
      ensures InRing(at', rings', head', y)
    {
      HeadOf(mem, at, rings, head, y);
      if head[y] == x {
        var j := Standing(r, y);
        assert r'[if j == |r| - 1 then 0 else j] == y;
      }
    }
    RungFrom(mem', at', rings', head');
  }

  lemma FirstHeads(mem: Memory, roots: seq<nat>, at: Places, rings: Rings, head: map<nat, nat>, x: nat)
    requires Tree(mem, roots, at) && Rung(mem, at, rings, head) && x in at
    ensures x in head && head[x] == x
  {
    hide Tree, Rung;
    RingOf(mem, at, rings, head, x);
    assert MemberOk(mem, head, x, rings[x], 0);
  }

  lemma DroppedKeys(mem: Memory, mem': Memory, at: Places, x: nat, b: nat)
    requires x in mem && mem[x].fd in mem && mem[x].bk in mem && DroppedFrom(LinkOut(mem, x), mem', at, x, b)
    ensures mem'.Keys == mem.Keys - {x}
  {
    LinkOutFacts(mem, x);
  }

  lemma NewRing(mem: Memory, roots: seq<nat>, at: Places, rings: Rings, head: map<nat, nat>, mem': Memory, x: nat)
    requires Tree(mem, roots, at) && Rung(mem, at, rings, head) && x in at && x in mem && x in rings && x in head
             && head[x] == x
    requires mem[x].fd in mem && mem[x].bk in mem && DroppedFrom(LinkOut(mem, x), mem', at, x, mem[x].bk)
    requires var r := rings[x];
             |r| >= 2 && r[0] == x && r[|r| - 1] == mem[x].bk && Linked(LinkOut(mem, x), DropAt(r, 0))
    ensures var b, r := mem[x].bk, rings[x]; RingOk(mem', Headed(head, x, b), b, [b] + r[1..|r| - 1])
  {
    hide Tree, Rung, LinkOut;
    var b, r := mem[x].bk, rings[x];
    var w, r' := DropAt(r, 0), [b] + r[1..|r| - 1];
    RingOf(mem, at, rings, head, x);
    RingMembers(mem, roots, at, head, x, r);
    LinkOutFacts(mem, x);
    Rotated(LinkOut(mem, x), w);
    assert [w[|w| - 1]] + w[..|w| - 1] == r';
    assert x !in r' by {
      forall k | 0 <= k < |r'|
        ensures r'[k] != x
      {
        assert r'[k] == r[if k == 0 then |r| - 1 else k];
      }
    }
    LinkedStays(LinkOut(mem, x), mem', at, x, b, r');
    forall k: nat | k < |r'|
      ensures MemberOk(mem', Headed(head, x, b), b, r', k)
    {
      assert MemberOk(mem, head, x, r, if k == 0 then |r| - 1 else k) && MemberOk(mem, head, x, r, |r| - 1);
      assert r'[k] in r' && r'[k] != x;
    }
  }

  // ----- putting another chunk into a node's place -----

  /** The pointers into the place of x, redirected to r; r has no children of its own. */
  function Relink(mem: Memory, x: nat, r: nat): Memory
    requires x in mem && r in mem && (mem[x].parent.Up? ==> mem[x].parent.a in mem)
    requires (mem[x].left != 0 ==> mem[x].left in mem) && (mem[x].right != 0 ==> mem[x].right in mem)
  {
    var c0, c1, p := mem[x].left, mem[x].right, mem[x].parent;
    var m1 := if p.Up? then mem[p.a := if mem[p.a].left == x then mem[p.a].(left := r) else mem[p.a].(right := r)]
      else mem;
    var m2 := m1[r := m1[r].(parent := p)];
    var m3 := if c0 != 0 then m2[r := m2[r].(left := c0)] else m2;
    var m4 := if c0 != 0 then m3[c0 := m3[c0].(parent := Up(r))] else m3;
    var m5 := if c1 != 0 then m4[r := m4[r].(right := c1)] else m4;
    if c1 != 0 then m5[c1 := m5[c1].(parent := Up(r))] else m5
  }

  lemma RelinkReplaces(mem: Memory, roots: seq<nat>, at: Places, x: nat, r: nat)
    requires Tree(mem, roots, at) && x in at && x in mem && r in mem && r !in at && mem[r].left == 0
             && mem[r].right == 0
    ensures (mem[x].parent.Up? ==> mem[x].parent.a in mem) && (forall n :: n in at ==> n in mem)
    ensures (mem[x].left != 0 ==> mem[x].left in mem) && (mem[x].right != 0 ==> mem[x].right in mem)
    ensures Replaced(mem, Relink(mem, x, r) - {x}, at, x, r)
    ensures Relink(mem, x, r).Keys == mem.Keys
    ensures forall y {:trigger Relink(mem, x, r)[y]} ::
              y in mem ==> SameMember(mem[y], Relink(mem, x, r)[y], y in at || y == r)
  {
    hide Tree, PathOf, TreeIndex, LargeSize;
    At(mem, roots, at, x);
    forall n | n in at
      ensures n in mem
    {
      Outside(mem, roots, at, n);
    }
    hide Good, Relink;
    RelinkKeys(mem, x, r);
    var mem' := Relink(mem, x, r);
    forall n | n in at && n != x
      ensures RelinkedNode(mem[n], mem'[n], x, r)
    {
      RelinkNode(mem, roots, at, x, r, n);
    }
    RelinkSelf(mem, roots, at, x, r);
  }

  lemma RelinkKeys(mem: Memory, x: nat, r: nat)
    requires x in mem && r in mem && (mem[x].parent.Up? ==> mem[x].parent.a in mem)
    requires (mem[x].left != 0 ==> mem[x].left in mem) && (mem[x].right != 0 ==> mem[x].right in mem)
    ensures Relink(mem, x, r).Keys == mem.Keys
  {
  }

  ghost predicate RelinkedNode(c: TChunk, d: TChunk, x: nat, r: nat) {
    && d.size == c.size && d.left == Moved(c.left, x, r) && d.right == Moved(c.right, x, r)
    && d.parent == MovedLink(c.parent, x, r) && d.fd == c.fd && d.bk == c.bk
  }

  lemma RelinkNode(mem: Memory, roots: seq<nat>, at: Places, x: nat, r: nat, n: nat)
    requires Tree(mem, roots, at) && x in at && x in mem && r in mem && r !in at && mem[r].left == 0
             && mem[r].right == 0
    requires (mem[x].parent.Up? ==> mem[x].parent.a in mem) && n in at && n in mem && n != x
    requires (mem[x].left != 0 ==> mem[x].left in mem) && (mem[x].right != 0 ==> mem[x].right in mem)
    ensures RelinkedNode(mem[n], Relink(mem, x, r)[n], x, r)
  {
    hide Tree, Good, Relink;
    PointsTo(mem, roots, at, x, n);
    BothSides(mem, roots, at, x, n);
    RelinkAt(mem, x, r, n);
  }

  lemma BothSides(mem: Memory, roots: seq<nat>, at: Places, x: nat, n: nat)
    requires Tree(mem, roots, at) && x in at && n in at
    ensures n in mem && x in mem && x != 0 && n != 0 && !(mem[n].left == x && mem[n].right == x)
    ensures mem[x].parent == Up(n) ==> mem[n].parent != Up(x)
  {
    hide Tree, PathOf, TreeIndex, LargeSize;
    At(mem, roots, at, x);
    At(mem, roots, at, n);
    OneSide(mem, at, n);
    assert mem[x].parent == Up(n) ==> |at[x].path| == |at[n].path| + 1;
    assert mem[n].parent == Up(x) ==> |at[n].path| == |at[x].path| + 1;
  }

  lemma RelinkAt(mem: Memory, x: nat, r: nat, n: nat)
    requires x in mem && r in mem && (mem[x].parent.Up? ==> mem[x].parent.a in mem) && n in mem && n != x && n != r
             && n != 0 && x != 0
    requires (mem[x].left != 0 ==> mem[x].left in mem) && (mem[x].right != 0 ==> mem[x].right in mem)
    requires (mem[n].left == x || mem[n].right == x) <==> mem[x].parent == Up(n)
    requires (mem[x].left == n || mem[x].right == n) <==> mem[n].parent == Up(x)
    requires !(mem[n].left == x && mem[n].right == x) && (mem[x].parent == Up(n) ==> mem[n].parent != Up(x))
    ensures RelinkedNode(mem[n], Relink(mem, x, r)[n], x, r)
  {
  }

  /** Only the parent of x has x as a child, and only its children have it as parent. */
  lemma PointsTo(mem: Memory, roots: seq<nat>, at: Places, x: nat, n: nat)
    requires Tree(mem, roots, at) && x in at && n in at
    ensures x in mem && n in mem && x != 0
    ensures (mem[n].left == x || mem[n].right == x) <==> mem[x].parent == Up(n)
    ensures (n != 0 && (mem[x].left == n || mem[x].right == n)) <==> mem[n].parent == Up(x)
  {
    hide Tree, PathOf, TreeIndex, LargeSize;
    At(mem, roots, at, x);
    At(mem, roots, at, n);
  }

  lemma RelinkSelf(mem: Memory, roots: seq<nat>, at: Places, x: nat, r: nat)
    requires Tree(mem, roots, at) && x in at && x in mem && r in mem && r !in at && mem[r].left == 0
             && mem[r].right == 0
    requires (mem[x].parent.Up? ==> mem[x].parent.a in mem)
    requires (mem[x].left != 0 ==> mem[x].left in mem) && (mem[x].right != 0 ==> mem[x].right in mem)
    ensures var d := Relink(mem, x, r)[r];
            d == mem[r].(left := mem[x].left, right := mem[x].right, parent := mem[x].parent)
    ensures forall y {:trigger Relink(mem, x, r)[y]} ::
              y in mem && y !in at && y != r ==> Relink(mem, x, r)[y] == mem[y]
    ensures mem[x].fd == Relink(mem, x, r)[x].fd && mem[x].bk == Relink(mem, x, r)[x].bk
            && mem[x].size == Relink(mem, x, r)[x].size
  {
    hide Tree, PathOf, TreeIndex, LargeSize;
    At(mem, roots, at, x);
  }

  /** A chunk that points back to itself is alone. */
  lemma AloneInRing(mem: Memory, roots: seq<nat>, at: Places, rings: Rings, head: map<nat, nat>, x: nat)
    requires Tree(mem, roots, at) && Rung(mem, at, rings, head) && x in mem && mem[x].bk == x
    ensures x in at && x in rings && rings[x] == [x]
  {
    hide Tree, Rung;
    HeadOf(mem, at, rings, head, x);
    var h := head[x];
    RingOf(mem, at, rings, head, h);
    var r := rings[h];
    var i := Standing(r, x);
    assert LinkAt(mem, r, i);
    OneOnly(r, i);
  }

  lemma OneOnly(r: seq<nat>, i: nat)
    requires NoRepeat(r) && i < |r| && r[Pred(i, |r|)] == r[i]
    ensures |r| == 1
  {
  }

  lemma NotInTree(mem: Memory, roots: seq<nat>, at: Places, x: nat)
    requires Tree(mem, roots, at) && x in mem && mem[x].parent == None
    ensures x !in at
  {
    hide Tree;
    if x in at {
      Outside(mem, roots, at, x);
    }
  }

  lemma InTree(mem: Memory, roots: seq<nat>, at: Places, rings: Rings, head: map<nat, nat>, x: nat)
    requires Tree(mem, roots, at) && Rung(mem, at, rings, head) && x in mem && mem[x].parent != None
    ensures x in at
  {
    hide Tree, Rung;
    HeadOf(mem, at, rings, head, x);
    RingOf(mem, at, rings, head, head[x]);
    var i := Standing(rings[head[x]], x);
    assert MemberOk(mem, head, head[x], rings[head[x]], i);
  }

  /** What the pointers at a node allow. */
  ghost predicate Replaceable(mem: Memory, roots: seq<nat>, at: Places, x: nat) {
    && x in mem && x in at && mem[x].parent != None && mem[x].parent != Up(x)
    && (mem[x].parent.Up? ==> mem[x].parent.a in mem)
    && (mem[x].left != 0 ==> mem[x].left in mem) && (mem[x].right != 0 ==> mem[x].right in mem)
    && at[x].bin < |roots| && TreeIndex(mem[x].size) == at[x].bin
    && (mem[x].parent == Bin <==> at[x].path == []) && (mem[x].parent == Bin <==> roots[at[x].bin] == x)
  }

  lemma CanReplace(mem: Memory, roots: seq<nat>, at: Places, x: nat)
    requires Tree(mem, roots, at) && x in at
    ensures Replaceable(mem, roots, at, x)
  {
    hide PathOf, TreeIndex, LargeSize;
    At(mem, roots, at, x);
    if roots[at[x].bin] == x {
      assert at[x] == Pos(at[x].bin, []);
    }
  }

  function ReplacedRoots(mem: Memory, roots: seq<nat>, x: nat, bin: nat, r: nat): seq<nat>
    requires x in mem && bin < |roots|
  {
    if mem[x].parent == Bin then roots[bin := r] else roots
  }

  /** Another chunk of the same ring in the place of x. */
  lemma SharedTree(mem: Memory, roots: seq<nat>, at: Places, rings: Rings, head: map<nat, nat>, x: nat)
    requires Tree(mem, roots, at) && Rung(mem, at, rings, head) && x in at && x in mem && mem[x].bk != x && 0 !in mem
    ensures mem[x].fd in mem && mem[x].bk in mem && Replaceable(LinkOut(mem, x), roots, at, x)
    ensures x in rings && |rings[x]| >= 2
    ensures var b, m := mem[x].bk, LinkOut(mem, x);
            var mem', at' := Relink(m, x, b) - {x}, (at - {x})[b := at[x]];
            && Tree(mem', ReplacedRoots(m, roots, x, at[x].bin, b), at')
            && Rung(mem', at', (rings - {x})[b := [b] + rings[x][1..|rings[x]| - 1]], Headed(head, x, b))
            && mem'.Keys == mem.Keys - {x} && forall y {:trigger mem'[y]} :: y in mem' ==> mem'[y].size == mem[y].size
  {
    hide Tree, Rung, PathOf, TreeIndex, LargeSize, LinkOut, Relink, Linked, RingOk;
    var i := Neighbours(mem, roots, at, rings, head, x);
    FirstHeads(mem, roots, at, rings, head, x);
    RingOf(mem, at, rings, head, x);
    RingMembers(mem, roots, at, head, x, rings[x]);
    var b, m := mem[x].bk, LinkOut(mem, x);
    Waiting(mem, head, x, rings[x], |rings[x]| - 1);
    LinkOutFacts(mem, x);
    LeaveNodes(mem, roots, at, x);
    TreeKept(mem, m, roots, at);
    CanReplace(m, roots, at, x);
    RelinkReplaces(m, roots, at, x, b);
    var mem' := Relink(m, x, b) - {x};
    SameSizeFits(mem, roots, at, x, m, mem', b);
    Replace(m, mem', roots, at, x, b);
    PassHead(mem, roots, at, rings, head, mem', x);
  }

  lemma Waiting(mem: Memory, head: map<nat, nat>, h: nat, r: seq<nat>, i: nat)
    requires RingOk(mem, head, h, r) && 0 < i < |r|
    ensures r[i] in mem && mem[r[i]].left == 0 && mem[r[i]].right == 0 && mem[r[i]].size == mem[h].size
  {
    assert MemberOk(mem, head, h, r, i);
  }

  lemma SameSizeFits(mem: Memory, roots: seq<nat>, at: Places, x: nat, m: Memory, mem': Memory, b: nat)
    requires Tree(mem, roots, at) && x in at && SameTree(mem, m, at) && b in mem' && mem'[b].size == mem[x].size
             && b != 0
    ensures x in mem && LargeSize(mem'[b].size) && TreeIndex(mem'[b].size) == at[x].bin
            && at[x].path <= PathOf(mem'[b].size)
    ensures forall n {:trigger m[n].size} :: n in at && n != x ==> n in m && m[n].size != mem'[b].size
  {
    At(mem, roots, at, x);
    forall n | n in at && n != x
      ensures n in m && m[n].size != mem'[b].size
    {
      At(mem, roots, at, n);
      assert mem[n].size != mem[x].size;
    }
  }

  /** A child is one step further down. */
  lemma StepDown(mem: Memory, roots: seq<nat>, at: Places, n: nat)
    requires Tree(mem, roots, at) && n in at
    ensures n in mem
    ensures forall b {:trigger Child(mem[n], b)} :: Child(mem[n], b) != 0 ==>
              var c := Child(mem[n], b);
              c in at && c in mem && at[c] == Pos(at[n].bin, at[n].path + [b]) && |at[c].path| <= 64
  {
    hide Tree, PathOf;
    At(mem, roots, at, n);
    forall b | Child(mem[n], b) != 0
      ensures var c := Child(mem[n], b);
              c in at && c in mem && at[c] == Pos(at[n].bin, at[n].path + [b]) && |at[c].path| <= 64
    {
      assert ChildOk(mem, at, n, b);
      At(mem, roots, at, Child(mem[n], b));
    }
  }

  lemma LeafTree(mem: Memory, roots: seq<nat>, at: Places, rings: Rings, head: map<nat, nat>, x: nat)
    requires Tree(mem, roots, at) && Rung(mem, at, rings, head) && x in at && x in mem && mem[x].left == 0
             && mem[x].right == 0
    requires x in rings && rings[x] == [x]
    ensures Replaceable(mem, roots, at, x)
    ensures var mem' := CutMemory(mem, x) - {x};
            && Tree(mem', CutRoots(mem, roots, x, at[x].bin), at - {x}) && Rung(mem', at - {x}, rings - {x}, head - {x})
            && mem'.Keys == mem.Keys - {x} && forall y {:trigger mem'[y]} :: y in mem' ==> mem'[y].size == mem[y].size
  {
    hide Tree, Rung, PathOf, TreeIndex, LargeSize, SameTree, CutMemory, CutRoots;
    CanReplace(mem, roots, at, x);
    CutLeaf(mem, roots, at, x);
    CutMembers(mem, roots, at, x);
    var m := CutMemory(mem, x);
    WithoutSame(m, CutRoots(mem, roots, x, at[x].bin), at - {x}, x);
    TreeKept(m, m - {x}, CutRoots(mem, roots, x, at[x].bin), at - {x});
    DropSingle(mem, roots, at, rings, head, m - {x}, at - {x}, x);
  }

  lemma WithoutSame(mem: Memory, roots: seq<nat>, at: Places, x: nat)
    requires Tree(mem, roots, at) && x !in at
    ensures SameTree(mem, mem - {x}, at)
  {
    hide Tree;
    forall n | n in at
      ensures n in mem
    {
      At(mem, roots, at, n);
    }
  }

  /** Cutting a leaf only touches its parent. */
  lemma CutMembers(mem: Memory, roots: seq<nat>, at: Places, x: nat)
    requires Tree(mem, roots, at) && x in at && x in mem && (mem[x].parent.Up? ==> mem[x].parent.a in mem)
    ensures CutMemory(mem, x).Keys == mem.Keys
    ensures forall y {:trigger CutMemory(mem, x)[y]} :: y in mem ==> SameMember(mem[y], CutMemory(mem, x)[y], y in at)
    ensures CutMemory(mem, x)[x].left == mem[x].left && CutMemory(mem, x)[x].right == mem[x].right
            && CutMemory(mem, x)[x].parent == mem[x].parent
  {
    hide PathOf;
    At(mem, roots, at, x);
  }

  /** A leaf below x in the place of x. */
  lemma InnerTree(mem: Memory, roots: seq<nat>, at: Places, rings: Rings, head: map<nat, nat>, x: nat, r: nat)
    requires Tree(mem, roots, at) && Rung(mem, at, rings, head) && x in at && x in mem && x in rings && rings[x] == [x]
    requires r in at && r in mem && mem[r].left == 0 && mem[r].right == 0 && at[r].bin == at[x].bin
             && at[x].path <= at[r].path && r != x
    ensures mem[r].parent.Up? && mem[r].parent.a in mem && r != 0 && r in CutMemory(mem, r)
    ensures Replaceable(CutMemory(mem, r), roots, at - {r}, x)
    ensures var m := CutMemory(mem, r);
            var mem', at' := Relink(m, x, r) - {x}, (at - {r} - {x})[r := at[x]];
            && Tree(mem', ReplacedRoots(m, roots, x, at[x].bin, r), at') && Rung(mem', at', rings - {x}, head - {x})
            && mem'.Keys == mem.Keys - {x} && forall y {:trigger mem'[y]} :: y in mem' ==> mem'[y].size == mem[y].size
  {
    hide Tree, Rung, PathOf, TreeIndex, LargeSize, Relink, CutMemory;
    NotRoot(mem, roots, at, x, r);
    CutLeaf(mem, roots, at, r);
    CutMembers(mem, roots, at, r);
    var m, at1 := CutMemory(mem, r), at - {r};
    CanReplace(m, roots, at1, x);
    RelinkReplaces(m, roots, at1, x, r);
    var mem' := Relink(m, x, r) - {x};
    DescendantFits(mem, roots, at, x, r, m, mem');
    Replace(m, mem', roots, at1, x, r);
    DropSingle(mem, roots, at, rings, head, mem', (at1 - {x})[r := at[x]], x);
  }

  lemma NotRoot(mem: Memory, roots: seq<nat>, at: Places, x: nat, r: nat)
    requires Tree(mem, roots, at) && x in at && r in at && at[r].bin == at[x].bin && at[x].path <= at[r].path && r != x
    ensures r in mem && mem[r].parent.Up? && mem[r].parent.a in mem && r != 0
  {
    hide Tree, PathOf;
    At(mem, roots, at, r);
    if at[r].path == [] {
      PlacesUnique(mem, roots, at, x, r);
    }
  }

  lemma DescendantFits(mem: Memory, roots: seq<nat>, at: Places, x: nat, r: nat, m: Memory, mem': Memory)
    requires Tree(mem, roots, at) && x in at && r in at && r in mem && at[r].bin == at[x].bin
             && at[x].path <= at[r].path && r != x
    requires r in mem' && mem'[r].size == mem[r].size && m.Keys == mem.Keys
    requires forall y {:trigger m[y]} :: y in mem ==> m[y].size == mem[y].size
    ensures LargeSize(mem'[r].size) && TreeIndex(mem'[r].size) == at[x].bin && at[x].path <= PathOf(mem'[r].size)
    ensures forall n {:trigger m[n].size} :: n in at - {r} && n != x ==> n in m && m[n].size != mem'[r].size
  {
    hide PathOf;
    At(mem, roots, at, r);
    forall n | n in at - {r} && n != x
      ensures n in m && m[n].size != mem'[r].size
    {
      At(mem, roots, at, n);
      assert mem[n].size != mem[r].size;
    }
  }
}
