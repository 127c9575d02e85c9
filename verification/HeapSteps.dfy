/** The tag changes of allocation and release, and the chunks they leave. */
module HeapSteps {
  import opened HeapTheory

  // ----- the tag operations -----

  function SetInuseAndPinuse(head: Heads, p: nat, s: nat): Heads
    requires p + s in head
  {
    head[p := Head(s, true, true)][p + s := head[p + s].(pinuse := true)]
  }

  function SetInuse(head: Heads, p: nat, s: nat): Heads {
    head[p := Head(s, true, true)]
  }

  function SetFree(head: Heads, p: nat, s: nat): Heads {
    head[p := Head(s, false, true)]
  }

  function ClearPinuse(head: Heads, n: nat): Heads
    requires n in head
  {
    head[n := head[n].(pinuse := false)]
  }

  lemma ReplaceChunks(head: Heads, foot: Feet, head': Heads, foot': Feet, ch: seq<Tile>, base: nat, limit: nat,
                      i: nat, j: nat, mid: seq<Tile>)
    requires WellFormed(head, foot, ch, base, limit) && i < j <= |ch| && mid != []
    requires Fits(ch, i, j, mid) && Suits(ch, i, j, mid) && Retagged(head, foot, head', foot', ch, i, j, mid)
    ensures WellFormed(head', foot', Splice(ch, i, j, mid), base, limit)
  {
    hide Tiled, Spaced, Tagged, Retagged, Fits, Suits;
    SpliceTiled(ch, base, limit, i, j, mid);
    SpliceSpaced(ch, i, j, mid);
    SpliceTagged(head, foot, head', foot', ch, base, limit, i, j, mid);
  }

  /** What is known around chunk i. */
  lemma Around(head: Heads, foot: Feet, ch: seq<Tile>, base: nat, limit: nat, i: nat)
    requires WellFormed(head, foot, ch, base, limit) && i < |ch|
    ensures ch[i].addr in head && head[ch[i].addr] == Head(ch[i].size, ch[i].inuse, i == 0 || ch[i - 1].inuse)
    ensures ch[i].size > 0 && ch[i].size % 8 == 0 && (i < |ch| - 1 ==> ch[i].size >= MIN_CHUNK_SIZE)
    ensures i < |ch| - 1 ==> ch[i + 1].addr == End(ch[i]) && (ch[i].inuse || ch[i + 1].inuse) && End(ch[i]) in head
                             && head[End(ch[i])] == Head(ch[i + 1].size, ch[i + 1].inuse, ch[i].inuse)
    ensures i > 0 ==> ch[i].addr == End(ch[i - 1]) && (ch[i - 1].inuse || ch[i].inuse)
    ensures i > 0 && !ch[i - 1].inuse ==> ch[i].addr in foot && foot[ch[i].addr] == ch[i - 1].size
    ensures i == |ch| - 1 ==> !ch[i].inuse
  {
    assert TagOk(head, foot, ch, i);
    if i < |ch| - 1 {
      assert TagOk(head, foot, ch, i + 1) && Joined(ch, i) && Separate(ch, i);
    }
    if i > 0 {
      assert TagOk(head, foot, ch, i - 1) && Joined(ch, i - 1) && Separate(ch, i - 1);
    }
  }

  // ----- allocation -----

  /** A free chunk is used whole. */
  lemma TakeWhole(head: Heads, foot: Feet, ch: seq<Tile>, base: nat, limit: nat, i: nat)
    requires WellFormed(head, foot, ch, base, limit) && i < |ch| - 1 && !ch[i].inuse
    ensures var p, s := ch[i].addr, ch[i].size;
            && p + s in head
            && WellFormed(SetInuseAndPinuse(head, p, s), foot, Splice(ch, i, i + 1, [Tile(p, s, true)]), base, limit)
  {
    hide WellFormed;
    Around(head, foot, ch, base, limit, i);
    var p, s := ch[i].addr, ch[i].size;
    var mid, head' := [Tile(p, s, true)], SetInuseAndPinuse(head, p, s);
    var r := Splice(ch, i, i + 1, mid);
    assert r[i] == mid[0];
    assert TagOk(head', foot, r, i);
    ReplaceChunks(head, foot, head', foot, ch, base, limit, i, i + 1, mid);
  }

  lemma FrontTags(head: Heads, foot: Feet, ch: seq<Tile>, base: nat, limit: nat, i: nat, nb: nat)
    requires WellFormed(head, foot, ch, base, limit) && i < |ch| - 1 && !ch[i].inuse
    requires nb % 8 == 0 && MIN_CHUNK_SIZE <= nb && nb + MIN_CHUNK_SIZE <= ch[i].size
    ensures var p, s := ch[i].addr, ch[i].size;
            var r := Splice(ch, i, i + 1, [Tile(p, nb, true), Tile(p + nb, s - nb, false)]);
            var head', foot' := SetFree(SetInuse(head, p, nb), p + nb, s - nb), foot[p + s := s - nb];
            TagOk(head', foot', r, i) && TagOk(head', foot', r, i + 1)
  {
    hide WellFormed;
    Around(head, foot, ch, base, limit, i);
    var p, s := ch[i].addr, ch[i].size;
    var mid := [Tile(p, nb, true), Tile(p + nb, s - nb, false)];
    var r := Splice(ch, i, i + 1, mid);
    assert r[i] == mid[0] && r[i + 1] == mid[1];
  }

  /** The front of a free chunk is used and the rest stays free. */
  lemma TakeFront(head: Heads, foot: Feet, ch: seq<Tile>, base: nat, limit: nat, i: nat, nb: nat)
    requires WellFormed(head, foot, ch, base, limit) && i < |ch| - 1 && !ch[i].inuse
    requires nb % 8 == 0 && MIN_CHUNK_SIZE <= nb && nb + MIN_CHUNK_SIZE <= ch[i].size
    ensures var p, s := ch[i].addr, ch[i].size;
            WellFormed(SetFree(SetInuse(head, p, nb), p + nb, s - nb), foot[p + s := s - nb],
                       Splice(ch, i, i + 1, [Tile(p, nb, true), Tile(p + nb, s - nb, false)]), base, limit)
  {
    hide WellFormed;
    Around(head, foot, ch, base, limit, i);
    FrontTags(head, foot, ch, base, limit, i, nb);
    var p, s := ch[i].addr, ch[i].size;
    var mid := [Tile(p, nb, true), Tile(p + nb, s - nb, false)];
    var head', foot' := SetFree(SetInuse(head, p, nb), p + nb, s - nb), foot[p + s := s - nb];
    var r := Splice(ch, i, i + 1, mid);
    assert r[i] == mid[0] && r[i + 1] == mid[1];
    assert Joined(mid, 0) && Separate(mid, 0);
    ReplaceChunks(head, foot, head', foot', ch, base, limit, i, i + 1, mid);
  }

  /** The front of the top is used and the rest is the new top. */
  lemma TakeTop(head: Heads, foot: Feet, ch: seq<Tile>, base: nat, limit: nat, nb: nat)
    requires WellFormed(head, foot, ch, base, limit) && ch != [] && nb % 8 == 0
             && MIN_CHUNK_SIZE <= nb < ch[|ch| - 1].size
    ensures var i := |ch| - 1;
            var p, s := ch[i].addr, ch[i].size;
            WellFormed(SetInuse(SetFree(head, p + nb, s - nb), p, nb), foot,
                       Splice(ch, i, i + 1, [Tile(p, nb, true), Tile(p + nb, s - nb, false)]), base, limit)
  {
    hide WellFormed, Tagged;
    var i := |ch| - 1;
    Around(head, foot, ch, base, limit, i);
    var p, s := ch[i].addr, ch[i].size;
    var mid := [Tile(p, nb, true), Tile(p + nb, s - nb, false)];
    var head' := SetInuse(SetFree(head, p + nb, s - nb), p, nb);
    var r := Splice(ch, i, i + 1, mid);
    assert r[i] == mid[0] && r[i + 1] == mid[1] && |r| == i + 2;
    assert TagOk(head', foot, r, i) && TagOk(head', foot, r, i + 1);
    assert Joined(mid, 0) && Separate(mid, 0);
    ReplaceChunks(head, foot, head', foot, ch, base, limit, i, i + 1, mid);
  }

  // ----- release -----

  /** The chunks that chunk i melts together with when it is released: free neighbours on both sides. */
  function From(ch: seq<Tile>, i: nat): (lo: nat)
    requires i < |ch|
    ensures lo <= i
  {
    if i > 0 && !ch[i - 1].inuse then i - 1 else i
  }

  function To(ch: seq<Tile>, i: nat): (hi: nat)
    requires i < |ch| - 1
    ensures i < hi <= |ch|
  {
    if !ch[i + 1].inuse then i + 2 else i + 1
  }

  /** The whole released stretch. */
  function Stretch(ch: seq<Tile>, i: nat): (s: nat)
    requires i < |ch| - 1
  {
    (if From(ch, i) < i then ch[i - 1].size else 0) + ch[i].size + (if To(ch, i) > i + 1 then ch[i + 1].size else 0)
  }

  lemma StretchEnds(head: Heads, foot: Feet, ch: seq<Tile>, base: nat, limit: nat, i: nat)
    requires WellFormed(head, foot, ch, base, limit) && i < |ch| - 1 && ch[i].inuse
    ensures var lo, hi := From(ch, i), To(ch, i);
            && ch[lo].addr + Stretch(ch, i) == End(ch[hi - 1]) && Stretch(ch, i) >= MIN_CHUNK_SIZE
            && Stretch(ch, i) % 8 == 0
            && (lo == 0 || ch[lo - 1].inuse)
            && (hi < |ch| ==> ch[hi].inuse && ch[hi].addr == End(ch[hi - 1]) && ch[hi].addr in head
                              && head[ch[hi].addr] == Head(ch[hi].size, true, ch[hi - 1].inuse))
  {
    hide WellFormed, Tiled;
    var lo, hi := From(ch, i), To(ch, i);
    Around(head, foot, ch, base, limit, i);
    Around(head, foot, ch, base, limit, lo);
    Around(head, foot, ch, base, limit, hi - 1);
    if lo > 0 {
      Around(head, foot, ch, base, limit, lo - 1);
    }
  }

  /** A released chunk becomes one free chunk with its free neighbours. */
  lemma Release(head: Heads, foot: Feet, ch: seq<Tile>, base: nat, limit: nat, i: nat)
    requires WellFormed(head, foot, ch, base, limit) && i < |ch| - 1 && ch[i].inuse && To(ch, i) < |ch|
    ensures var p, s := ch[From(ch, i)].addr, Stretch(ch, i);
            && p + s in head
            && WellFormed(SetFree(ClearPinuse(head, p + s), p, s), foot[p + s := s],
                          Splice(ch, From(ch, i), To(ch, i), [Tile(p, s, false)]), base, limit)
  {
    hide WellFormed, Stretch;
    StretchEnds(head, foot, ch, base, limit, i);
    var lo, hi, s := From(ch, i), To(ch, i), Stretch(ch, i);
    var p := ch[lo].addr;
    var mid, head', foot' := [Tile(p, s, false)], SetFree(ClearPinuse(head, p + s), p, s), foot[p + s := s];
    var r := Splice(ch, lo, hi, mid);
    assert r[lo] == mid[0];
    assert TagOk(head', foot', r, lo);
    ReplaceChunks(head, foot, head', foot', ch, base, limit, lo, hi, mid);
  }

  /** A chunk released next to the top becomes part of it. */
  lemma ReleaseToTop(head: Heads, foot: Feet, ch: seq<Tile>, base: nat, limit: nat, i: nat)
    requires WellFormed(head, foot, ch, base, limit) && i < |ch| - 1 && ch[i].inuse && To(ch, i) == |ch|
    ensures var p, s := ch[From(ch, i)].addr, Stretch(ch, i);
            WellFormed(SetFree(head, p, s), foot, Splice(ch, From(ch, i), |ch|, [Tile(p, s, false)]), base, limit)
  {
    hide WellFormed, Stretch;
    StretchEnds(head, foot, ch, base, limit, i);
    var lo, s := From(ch, i), Stretch(ch, i);
    var p := ch[lo].addr;
    var mid, head' := [Tile(p, s, false)], SetFree(head, p, s);
    var r := Splice(ch, lo, |ch|, mid);
    assert r[lo] == mid[0] && |r| == lo + 1;
    assert TagOk(head', foot, r, lo);
    ReplaceChunks(head, foot, head', foot, ch, base, limit, lo, |ch|, mid);
  }
}
