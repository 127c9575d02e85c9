/** A segment cut into chunks: boundary tags, and what allocation and release do to the cut. */
module HeapTheory {
  const MIN_CHUNK_SIZE: nat := 32

  /** A chunk; the last of a segment is its free top. */
  datatype Tile = Tile(addr: nat, size: nat, inuse: bool)

  /** The head word of a chunk: its size and the bits for itself and for the chunk before it. */
  datatype Head = Head(size: nat, cinuse: bool, pinuse: bool)

  type Heads = map<nat, Head>
  type Feet = map<nat, nat>

  function End(t: Tile): nat {
    t.addr + t.size
  }

  // ----- a well-formed cut -----

  /** The chunks lie one after the other from base to limit. */
  ghost predicate Tiled(ch: seq<Tile>, base: nat, limit: nat) {
    && ch != [] && ch[0].addr == base && End(ch[|ch| - 1]) == limit
    && (forall i {:trigger ch[i]} ::
          0 <= i < |ch| ==> ch[i].size > 0 && ch[i].size % 8 == 0 && (i < |ch| - 1 ==> ch[i].size >= MIN_CHUNK_SIZE))
    && (forall i {:trigger Joined(ch, i)} :: 0 <= i < |ch| - 1 ==> Joined(ch, i))
  }

  ghost predicate Joined(ch: seq<Tile>, i: int)
    requires 0 <= i < |ch| - 1
  {
    ch[i + 1].addr == End(ch[i])
  }

  /** No two free chunks touch, and the top is free. */
  ghost predicate Spaced(ch: seq<Tile>) {
    && ch != [] && !ch[|ch| - 1].inuse
    && forall i {:trigger Separate(ch, i)} :: 0 <= i < |ch| - 1 ==> Separate(ch, i)
  }

  ghost predicate Separate(ch: seq<Tile>, i: int)
    requires 0 <= i < |ch| - 1
  {
    ch[i].inuse || ch[i + 1].inuse
  }

  /** The tags of chunk i tell its size, its state and the state of the chunk before; a free one also has a foot. */
  ghost predicate TagOk(head: Heads, foot: Feet, ch: seq<Tile>, i: int)
    requires 0 <= i < |ch|
  {
    && ch[i].addr in head
    && head[ch[i].addr] == Head(ch[i].size, ch[i].inuse, i == 0 || ch[i - 1].inuse)
    && (!ch[i].inuse && i < |ch| - 1 ==> End(ch[i]) in foot && foot[End(ch[i])] == ch[i].size)
  }

  ghost predicate Tagged(head: Heads, foot: Feet, ch: seq<Tile>) {
    forall i {:trigger TagOk(head, foot, ch, i)} :: 0 <= i < |ch| ==> TagOk(head, foot, ch, i)
  }

  ghost predicate WellFormed(head: Heads, foot: Feet, ch: seq<Tile>, base: nat, limit: nat) {
    Tiled(ch, base, limit) && Spaced(ch) && Tagged(head, foot, ch)
  }

  // ----- order and uniqueness of addresses -----

  lemma {:induction false} Ascending(ch: seq<Tile>, base: nat, limit: nat, i: nat, j: nat)
    requires Tiled(ch, base, limit) && i < j < |ch|
    ensures End(ch[i]) <= ch[j].addr
    decreases j
  {
    assert Joined(ch, j - 1);
    if i < j - 1 {
      Ascending(ch, base, limit, i, j - 1);
    }
  }

  lemma OneAt(ch: seq<Tile>, base: nat, limit: nat, i: nat, j: nat)
    requires Tiled(ch, base, limit) && i < |ch| && j < |ch| && ch[i].addr == ch[j].addr
    ensures i == j
  {
    if i < j {
      Ascending(ch, base, limit, i, j);
    } else if j < i {
      Ascending(ch, base, limit, j, i);
    }
  }

  /** Different chunks do not overlap, and all lie in the segment. */
  lemma Apart(ch: seq<Tile>, base: nat, limit: nat, i: nat, j: nat)
    requires Tiled(ch, base, limit) && i < |ch| && j < |ch|
    ensures base <= ch[i].addr && End(ch[i]) <= limit
    ensures i != j ==> End(ch[i]) <= ch[j].addr || End(ch[j]) <= ch[i].addr
  {
    if i < j {
      Ascending(ch, base, limit, i, j);
    } else if j < i {
      Ascending(ch, base, limit, j, i);
    }
    if i > 0 {
      Ascending(ch, base, limit, 0, i);
    }
    if i < |ch| - 1 {
      Ascending(ch, base, limit, i, |ch| - 1);
    }
  }

  ghost predicate IsFree(ch: seq<Tile>, a: nat, s: nat) {
    exists i :: 0 <= i < |ch| - 1 && ch[i] == Tile(a, s, false)
  }

  ghost predicate IsUsed(ch: seq<Tile>, a: nat, s: nat) {
    exists i :: 0 <= i < |ch| && ch[i] == Tile(a, s, true)
  }

  lemma FreeIndex(ch: seq<Tile>, a: nat, s: nat) returns (i: nat)
    requires IsFree(ch, a, s)
    ensures i < |ch| - 1 && ch[i] == Tile(a, s, false)
  {
    i :| 0 <= i < |ch| - 1 && ch[i] == Tile(a, s, false);
  }

  /** A chunk is known by its address. */
  lemma SizeKnown(ch: seq<Tile>, base: nat, limit: nat, a: nat, s: nat, t: nat)
    requires Tiled(ch, base, limit) && IsFree(ch, a, s) && IsFree(ch, a, t)
    ensures s == t
  {
    var i := FreeIndex(ch, a, s);
    var j := FreeIndex(ch, a, t);
    OneAt(ch, base, limit, i, j);
  }

  // ----- replacing a run of chunks -----

  /** The chunks i up to j give way to the chunks mid. */
  function Splice(ch: seq<Tile>, i: nat, j: nat, mid: seq<Tile>): (r: seq<Tile>)
    requires i <= j <= |ch|
    ensures |r| == |ch| - (j - i) + |mid|
    ensures forall k :: 0 <= k < i ==> r[k] == ch[k]
    ensures forall k :: i <= k < i + |mid| ==> r[k] == mid[k - i]
    ensures forall k :: i + |mid| <= k < |r| ==> r[k] == ch[k - |mid| + (j - i)]
  {
    ch[..i] + mid + ch[j..]
  }

  /** mid covers the same bytes as the chunks i up to j, and has sizes that fit. */
  ghost predicate Fits(ch: seq<Tile>, i: nat, j: nat, mid: seq<Tile>)
    requires i < j <= |ch|
  {
    && mid != [] && mid[0].addr == ch[i].addr && End(mid[|mid| - 1]) == End(ch[j - 1])
    && (forall k {:trigger mid[k]} ::
          0 <= k < |mid| ==>
            mid[k].size > 0 && mid[k].size % 8 == 0 && (k < |mid| - 1 || j < |ch| ==> mid[k].size >= MIN_CHUNK_SIZE))
    && (forall k {:trigger Joined(mid, k)} :: 0 <= k < |mid| - 1 ==> Joined(mid, k))
  }

  lemma SpliceTiled(ch: seq<Tile>, base: nat, limit: nat, i: nat, j: nat, mid: seq<Tile>)
    requires Tiled(ch, base, limit) && i < j <= |ch| && Fits(ch, i, j, mid)
    ensures Tiled(Splice(ch, i, j, mid), base, limit)
  {
    var r := Splice(ch, i, j, mid);
    var m := i + |mid|;
    forall k | 0 <= k < |r| - 1
      ensures Joined(r, k)
    {
      if k < i - 1 {
        assert Joined(ch, k);
      } else if k == i - 1 {
        assert Joined(ch, k);
      } else if k < m - 1 {
        assert Joined(mid, k - i);
      } else if k == m - 1 {
        assert Joined(ch, j - 1);
      } else {
        assert Joined(ch, k - |mid| + (j - i));
      }
    }
  }

  /** The first and the last of mid suit their neighbours. */
  ghost predicate Suits(ch: seq<Tile>, i: nat, j: nat, mid: seq<Tile>)
    requires i < j <= |ch| && mid != []
  {
    && (i > 0 ==> ch[i - 1].inuse || mid[0].inuse)
    && (if j < |ch| then mid[|mid| - 1].inuse || ch[j].inuse else !mid[|mid| - 1].inuse)
    && (forall k {:trigger Separate(mid, k)} :: 0 <= k < |mid| - 1 ==> Separate(mid, k))
  }

  lemma SpliceSpaced(ch: seq<Tile>, i: nat, j: nat, mid: seq<Tile>)
    requires Spaced(ch) && i < j <= |ch| && mid != [] && Suits(ch, i, j, mid)
    ensures Spaced(Splice(ch, i, j, mid))
  {
    var r := Splice(ch, i, j, mid);
    var m := i + |mid|;
    forall k | 0 <= k < |r| - 1
      ensures Separate(r, k)
    {
      if k < i - 1 {
        assert Separate(ch, k);
      } else if i <= k < m - 1 {
        assert Separate(mid, k - i);
      } else if k >= m {
        assert Separate(ch, k - |mid| + (j - i));
      }
    }
  }

  /** The tags of mid are set, the chunk behind it knows what is before it, and no other tag changed. */
  ghost predicate Retagged(head: Heads, foot: Feet, head': Heads, foot': Feet, ch: seq<Tile>, i: nat, j: nat,
                           mid: seq<Tile>)
    requires i < j <= |ch| && mid != []
  {
    var r := Splice(ch, i, j, mid);
    && (forall k {:trigger TagOk(head', foot', r, k)} :: i <= k < i + |mid| ==> TagOk(head', foot', r, k))
    && (forall a {:trigger a in head'} :: a in head && (a < ch[i].addr || a >= End(ch[j - 1])) ==>
          a in head' && (a == End(ch[j - 1]) || head'[a] == head[a]))
    && (forall a {:trigger a in foot'} ::
          a in foot && (a <= ch[i].addr || a > End(ch[j - 1])) ==> a in foot' && foot'[a] == foot[a])
    && (j < |ch| ==> ch[j].addr in head' && head'[ch[j].addr] == Head(ch[j].size, ch[j].inuse, mid[|mid| - 1].inuse))
  }

  lemma SpliceTagged(head: Heads, foot: Feet, head': Heads, foot': Feet, ch: seq<Tile>, base: nat, limit: nat,
                     i: nat, j: nat, mid: seq<Tile>)
    requires Tiled(ch, base, limit) && Tagged(head, foot, ch) && i < j <= |ch| && mid != []
             && Retagged(head, foot, head', foot', ch, i, j, mid)
    ensures Tagged(head', foot', Splice(ch, i, j, mid))
  {
    var r := Splice(ch, i, j, mid);
    var m := i + |mid|;
    forall k | 0 <= k < |r|
      ensures TagOk(head', foot', r, k)
    {
      if k < i {
        SpliceBefore(head, foot, head', foot', ch, base, limit, i, j, mid, k);
      } else if k >= m {
        SpliceBehind(head, foot, head', foot', ch, base, limit, i, j, mid, k);
      }
    }
  }

  lemma SpliceBefore(head: Heads, foot: Feet, head': Heads, foot': Feet, ch: seq<Tile>, base: nat, limit: nat,
                     i: nat, j: nat, mid: seq<Tile>, k: nat)
    requires Tiled(ch, base, limit) && Tagged(head, foot, ch) && i < j <= |ch| && mid != []
             && Retagged(head, foot, head', foot', ch, i, j, mid)
    requires k < i
    ensures TagOk(head', foot', Splice(ch, i, j, mid), k)
  {
    hide Tiled, Tagged;
    assert TagOk(head, foot, ch, k) by { TagAt(head, foot, ch, k); }
    Ascending(ch, base, limit, k, i);
    Apart(ch, base, limit, k, i);
    PositiveSize(ch, base, limit, k);
    if i < j - 1 {
      Ascending(ch, base, limit, i, j - 1);
    }
    assert ch[k].addr in head';
    assert End(ch[k]) in foot ==> End(ch[k]) in foot';
  }

  lemma SpliceBehind(head: Heads, foot: Feet, head': Heads, foot': Feet, ch: seq<Tile>, base: nat, limit: nat,
                     i: nat, j: nat, mid: seq<Tile>, k: nat)
    requires Tiled(ch, base, limit) && Tagged(head, foot, ch) && i < j <= |ch| && mid != []
             && Retagged(head, foot, head', foot', ch, i, j, mid)
    requires i + |mid| <= k < |ch| - (j - i) + |mid|
    ensures TagOk(head', foot', Splice(ch, i, j, mid), k)
  {
    hide Tiled, Tagged;
    var o := k - |mid| + (j - i);
    assert TagOk(head, foot, ch, o) by { TagAt(head, foot, ch, o); }
    Ascending(ch, base, limit, j - 1, o);
    PositiveSize(ch, base, limit, o);
    PositiveSize(ch, base, limit, j - 1);
    if o == j {
      NextAddr(ch, base, limit, j - 1);
    } else {
      Ascending(ch, base, limit, j, o);
      PositiveSize(ch, base, limit, j);
      Ascending(ch, base, limit, j - 1, j);
    }
    if i < j - 1 {
      Ascending(ch, base, limit, i, j - 1);
    }
    assert ch[o].addr in head';
    assert End(ch[o]) in foot ==> End(ch[o]) in foot';
  }

  lemma TagAt(head: Heads, foot: Feet, ch: seq<Tile>, k: nat)
    requires Tagged(head, foot, ch) && k < |ch|
    ensures TagOk(head, foot, ch, k)
  {
  }

  lemma PositiveSize(ch: seq<Tile>, base: nat, limit: nat, k: nat)
    requires Tiled(ch, base, limit) && k < |ch|
    ensures ch[k].size > 0 && ch[k].size % 8 == 0 && (k < |ch| - 1 ==> ch[k].size >= MIN_CHUNK_SIZE)
  {
  }

  lemma NextAddr(ch: seq<Tile>, base: nat, limit: nat, k: nat)
    requires Tiled(ch, base, limit) && k < |ch| - 1
    ensures ch[k + 1].addr == End(ch[k])
  {
    assert Joined(ch, k);
  }

  /** Which chunks are free or in use after a splice: those outside it as before, and those of mid. */
  lemma SpliceFree(ch: seq<Tile>, base: nat, limit: nat, i: nat, j: nat, mid: seq<Tile>, a: nat, s: nat)
    requires Tiled(ch, base, limit) && i < j <= |ch| && mid != []
    ensures IsFree(Splice(ch, i, j, mid), a, s) <==>
            || (IsFree(ch, a, s) && (a < ch[i].addr || a >= End(ch[j - 1])))
            || (exists k :: 0 <= k < |mid| - (if j == |ch| then 1 else 0) && mid[k] == Tile(a, s, false))
    ensures IsUsed(Splice(ch, i, j, mid), a, s) <==>
            || (IsUsed(ch, a, s) && (a < ch[i].addr || a >= End(ch[j - 1])))
            || (exists k :: 0 <= k < |mid| && mid[k] == Tile(a, s, true))
  {
    hide Tiled;
    var r := Splice(ch, i, j, mid);
    forall k | 0 <= k < |ch|
      ensures (ch[k].addr < ch[i].addr <==> k < i) && (ch[k].addr >= End(ch[j - 1]) <==> k >= j)
    {
      Outside(ch, base, limit, i, j, k);
    }
    forall b
      ensures (exists k :: 0 <= k < |r| && r[k] == Tile(a, s, b)) <==>
              || (exists k :: 0 <= k < |ch| && (k < i || k >= j) && ch[k] == Tile(a, s, b))
              || (exists k :: 0 <= k < |mid| && mid[k] == Tile(a, s, b))
    {
      SpliceMember(ch, i, j, mid, Tile(a, s, b));
    }
    SpliceLast(ch, i, j, mid, Tile(a, s, false));
  }

  lemma Outside(ch: seq<Tile>, base: nat, limit: nat, i: nat, j: nat, k: nat)
    requires Tiled(ch, base, limit) && i < j <= |ch| && k < |ch|
    ensures (ch[k].addr < ch[i].addr <==> k < i) && (ch[k].addr >= End(ch[j - 1]) <==> k >= j)
  {
    hide Tiled;
    PositiveSize(ch, base, limit, k);
    PositiveSize(ch, base, limit, i);
    PositiveSize(ch, base, limit, j - 1);
    if k < i {
      Ascending(ch, base, limit, k, i);
    } else if i < k {
      Ascending(ch, base, limit, i, k);
    }
    if k < j - 1 {
      Ascending(ch, base, limit, k, j - 1);
    } else if j - 1 < k {
      Ascending(ch, base, limit, j - 1, k);
    }
  }

  lemma SpliceMember(ch: seq<Tile>, i: nat, j: nat, mid: seq<Tile>, t: Tile)
    requires i < j <= |ch|
    ensures (exists k :: 0 <= k < |Splice(ch, i, j, mid)| && Splice(ch, i, j, mid)[k] == t) <==>
            || (exists k :: 0 <= k < |ch| && (k < i || k >= j) && ch[k] == t)
            || (exists k :: 0 <= k < |mid| && mid[k] == t)
  {
    var r := Splice(ch, i, j, mid);
    if k :| 0 <= k < |ch| && (k < i || k >= j) && ch[k] == t {
      assert r[if k < i then k else k + |mid| - (j - i)] == t;
    }
    if k :| 0 <= k < |mid| && mid[k] == t {
      assert r[i + k] == t;
    }
  }

  /** The same, leaving out the top. */
  lemma SpliceLast(ch: seq<Tile>, i: nat, j: nat, mid: seq<Tile>, t: Tile)
    requires i < j <= |ch| && mid != []
    ensures (exists k :: 0 <= k < |Splice(ch, i, j, mid)| - 1 && Splice(ch, i, j, mid)[k] == t) <==>
            || (exists k :: 0 <= k < |ch| - 1 && (k < i || k >= j) && ch[k] == t)
            || (exists k :: 0 <= k < |mid| - (if j == |ch| then 1 else 0) && mid[k] == t)
  {
    var r := Splice(ch, i, j, mid);
    if k :| 0 <= k < |ch| - 1 && (k < i || k >= j) && ch[k] == t {
      assert r[if k < i then k else k + |mid| - (j - i)] == t;
    }
    if k :| 0 <= k < |mid| - (if j == |ch| then 1 else 0) && mid[k] == t {
      assert r[i + k] == t;
    }
  }
}
