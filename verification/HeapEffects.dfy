/** Which chunks are free and which are in use after each step. */
module HeapEffects {
  import opened HeapTheory
  import opened HeapSteps

  /** A free or used chunk lies outside a run of chunks unless it is one of them. */
  lemma InRun(ch: seq<Tile>, base: nat, limit: nat, i: nat, j: nat, a: nat, s: nat)
    requires Tiled(ch, base, limit) && i < j <= |ch|
    ensures IsFree(ch, a, s) || IsUsed(ch, a, s) ==>
              ((a < ch[i].addr || a >= End(ch[j - 1])) <==> forall k :: i <= k < j ==> ch[k].addr != a)
  {
    hide Tiled;
    if IsFree(ch, a, s) || IsUsed(ch, a, s) {
      var m: nat :| m < |ch| && ch[m].addr == a;
      Outside(ch, base, limit, i, j, m);
      forall k: nat | i <= k < j
        ensures ch[k].addr == a <==> k == m
      {
        if ch[k].addr == a {
          OneAt(ch, base, limit, k, m);
        }
      }
    }
  }

  lemma WholeEffect(ch: seq<Tile>, base: nat, limit: nat, i: nat, a: nat, t: nat)
    requires Tiled(ch, base, limit) && i < |ch| - 1 && !ch[i].inuse
    ensures var p, s := ch[i].addr, ch[i].size;
            var ch' := Splice(ch, i, i + 1, [Tile(p, s, true)]);
            && (IsFree(ch', a, t) <==> IsFree(ch, a, t) && a != p)
            && (IsUsed(ch', a, t) <==> IsUsed(ch, a, t) || (a == p && t == s))
  {
    hide Tiled, Splice;
    var mid := [Tile(ch[i].addr, ch[i].size, true)];
    SpliceFree(ch, base, limit, i, i + 1, mid, a, t);
    InRun(ch, base, limit, i, i + 1, a, t);
    NotUsed(ch, base, limit, i, a, t);
    assert mid[0] == Tile(ch[i].addr, ch[i].size, true);
  }

  lemma NotUsed(ch: seq<Tile>, base: nat, limit: nat, i: nat, a: nat, t: nat)
    requires Tiled(ch, base, limit) && i < |ch| && !ch[i].inuse
    ensures IsUsed(ch, a, t) ==> a != ch[i].addr
  {
    hide Tiled;
    if IsUsed(ch, a, t) {
      var k: nat :| k < |ch| && ch[k] == Tile(a, t, true);
      if a == ch[i].addr {
        OneAt(ch, base, limit, i, k);
      }
    }
  }

  lemma NotLive(ch: seq<Tile>, base: nat, limit: nat, i: nat)
    requires Tiled(ch, base, limit) && i < |ch| && !ch[i].inuse
    ensures !IsLive(ch, ch[i].addr)
  {
    forall t: nat
      ensures !IsUsed(ch, ch[i].addr, t)
    {
      NotUsed(ch, base, limit, i, ch[i].addr, t);
    }
  }

  lemma NotFree(ch: seq<Tile>, base: nat, limit: nat, i: nat, a: nat, t: nat)
    requires Tiled(ch, base, limit) && i < |ch| && (ch[i].inuse || i == |ch| - 1)
    ensures IsFree(ch, a, t) ==> a != ch[i].addr
  {
    hide Tiled;
    if IsFree(ch, a, t) {
      var k := FreeIndex(ch, a, t);
      if a == ch[i].addr {
        OneAt(ch, base, limit, i, k);
      }
    }
  }

  lemma FrontEffect(ch: seq<Tile>, base: nat, limit: nat, i: nat, nb: nat, a: nat, t: nat)
    requires Tiled(ch, base, limit) && i < |ch| - 1 && !ch[i].inuse && nb < ch[i].size
    ensures var p, s := ch[i].addr, ch[i].size;
            var ch' := Splice(ch, i, i + 1, [Tile(p, nb, true), Tile(p + nb, s - nb, false)]);
            && (IsFree(ch', a, t) <==> (IsFree(ch, a, t) && a != p) || (a == p + nb && t == s - nb))
            && (IsUsed(ch', a, t) <==> IsUsed(ch, a, t) || (a == p && t == nb))
  {
    hide Tiled, Splice;
    var p, s := ch[i].addr, ch[i].size;
    var mid := [Tile(p, nb, true), Tile(p + nb, s - nb, false)];
    SpliceFree(ch, base, limit, i, i + 1, mid, a, t);
    InRun(ch, base, limit, i, i + 1, a, t);
    NotUsed(ch, base, limit, i, a, t);
    assert mid[0] == Tile(p, nb, true) && mid[1] == Tile(p + nb, s - nb, false);
  }

  lemma TopEffect(ch: seq<Tile>, base: nat, limit: nat, nb: nat, a: nat, t: nat)
    requires Tiled(ch, base, limit) && !ch[|ch| - 1].inuse && nb < ch[|ch| - 1].size
    ensures var i := |ch| - 1;
            var p, s := ch[i].addr, ch[i].size;
            var ch' := Splice(ch, i, i + 1, [Tile(p, nb, true), Tile(p + nb, s - nb, false)]);
            && (IsFree(ch', a, t) <==> IsFree(ch, a, t))
            && (IsUsed(ch', a, t) <==> IsUsed(ch, a, t) || (a == p && t == nb))
  {
    assert ch != [];
    hide Tiled, Splice;
    var i := |ch| - 1;
    var p, s := ch[i].addr, ch[i].size;
    var mid := [Tile(p, nb, true), Tile(p + nb, s - nb, false)];
    SpliceFree(ch, base, limit, i, i + 1, mid, a, t);
    InRun(ch, base, limit, i, i + 1, a, t);
    NotUsed(ch, base, limit, i, a, t);
    NotFree(ch, base, limit, i, a, t);
    assert mid[0] == Tile(p, nb, true);
  }

  /** The free neighbours that a release swallows, apart from the top. */
  ghost function Swallowed(ch: seq<Tile>, i: nat): set<nat>
    requires i < |ch| - 1
  {
    (if From(ch, i) < i then {ch[i - 1].addr} else {}) + (if i + 1 < To(ch, i) < |ch| then {ch[i + 1].addr} else {})
  }

  lemma ReleaseEffect(ch: seq<Tile>, base: nat, limit: nat, i: nat, a: nat, t: nat)
    requires Tiled(ch, base, limit) && i < |ch| - 1 && ch[i].inuse && !ch[|ch| - 1].inuse
    ensures var p, s := ch[From(ch, i)].addr, Stretch(ch, i);
            var ch' := Splice(ch, From(ch, i), To(ch, i), [Tile(p, s, false)]);
            && (IsFree(ch', a, t) <==>
                  (IsFree(ch, a, t) && a !in Swallowed(ch, i)) || (To(ch, i) < |ch| && a == p && t == s))
            && (IsUsed(ch', a, t) <==> IsUsed(ch, a, t) && a != ch[i].addr)
  {
    hide Tiled, Splice, Stretch;
    var lo, hi := From(ch, i), To(ch, i);
    var p, s := ch[lo].addr, Stretch(ch, i);
    var mid := [Tile(p, s, false)];
    SpliceFree(ch, base, limit, lo, hi, mid, a, t);
    InRun(ch, base, limit, lo, hi, a, t);
    assert mid[0] == Tile(p, s, false);
    NotFree(ch, base, limit, i, a, t);
    NotFree(ch, base, limit, |ch| - 1, a, t);
    if lo < i {
      NotUsed(ch, base, limit, lo, a, t);
    }
    if hi > i + 1 {
      NotUsed(ch, base, limit, i + 1, a, t);
    }
    assert (forall k :: lo <= k < hi ==> ch[k].addr != a) <==>
           ch[i].addr != a && (lo < i ==> ch[i - 1].addr != a) && (hi == i + 2 ==> ch[i + 1].addr != a);
  }

  // ----- what a call does to the chunks in use -----

  /** The chunk at p is in use. */
  ghost predicate IsLive(ch: seq<Tile>, p: nat) {
    exists s :: IsUsed(ch, p, s)
  }

  /** One more chunk is in use, which was not before. */
  ghost predicate UsedMore(ch: seq<Tile>, ch': seq<Tile>, p: nat, s: nat) {
    && !IsLive(ch, p)
    && forall a: nat, t: nat {:trigger IsUsed(ch', a, t)} ::
         IsUsed(ch', a, t) <==> IsUsed(ch, a, t) || (a == p && t == s)
  }

  /** One chunk less is in use. */
  ghost predicate UsedLess(ch: seq<Tile>, ch': seq<Tile>, p: nat) {
    forall a: nat, t: nat {:trigger IsUsed(ch', a, t)} :: IsUsed(ch', a, t) <==> IsUsed(ch, a, t) && a != p
  }

  /** The chunk at p is newly in use, and its size is the request's or too little more to split. */
  ghost predicate Got(ch: seq<Tile>, ch': seq<Tile>, p: nat, nb: nat) {
    p != 0 && exists s :: nb <= s < nb + MIN_CHUNK_SIZE && UsedMore(ch, ch', p, s)
  }

  lemma GotExactly(ch: seq<Tile>, ch': seq<Tile>, p: nat, nb: nat)
    requires p != 0 && UsedMore(ch, ch', p, nb)
    ensures Got(ch, ch', p, nb)
  {
    hide UsedMore;
  }

  /** Used chunks at different addresses do not overlap. */
  lemma UsedApart(ch: seq<Tile>, base: nat, limit: nat, a: nat, s: nat, b: nat, t: nat)
    requires Tiled(ch, base, limit) && IsUsed(ch, a, s) && IsUsed(ch, b, t) && a != b
    ensures a + s <= b || b + t <= a
  {
    hide Tiled;
    var i: nat :| i < |ch| && ch[i] == Tile(a, s, true);
    var j: nat :| j < |ch| && ch[j] == Tile(b, t, true);
    Apart(ch, base, limit, i, j);
  }

  lemma {:induction false} Aligned(ch: seq<Tile>, base: nat, limit: nat, i: nat)
    requires Tiled(ch, base, limit) && base % 8 == 0 && i < |ch|
    ensures ch[i].addr % 8 == 0
  {
    if i > 0 {
      Aligned(ch, base, limit, i - 1);
      assert Joined(ch, i - 1);
    }
  }

  /** A newly used chunk is aligned, and disjoint from all that were in use before. */
  lemma GotApart(ch: seq<Tile>, ch': seq<Tile>, base: nat, limit: nat, p: nat, nb: nat)
    requires Tiled(ch', base, limit) && base % 8 == 0 && Got(ch, ch', p, nb)
    ensures p % 8 == 0
    ensures forall a: nat, t: nat {:trigger IsUsed(ch, a, t)} :: IsUsed(ch, a, t) ==> a + t <= p || p + nb <= a
  {
    hide Tiled;
    var s :| nb <= s < nb + MIN_CHUNK_SIZE && UsedMore(ch, ch', p, s);
    assert IsUsed(ch', p, s);
    var i: nat :| i < |ch'| && ch'[i] == Tile(p, s, true);
    Aligned(ch', base, limit, i);
    forall a: nat, t: nat | IsUsed(ch, a, t)
      ensures a + t <= p || p + nb <= a
    {
      assert a != p && IsUsed(ch', a, t);
      UsedApart(ch', base, limit, a, t, p, s);
    }
  }
}
