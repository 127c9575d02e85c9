/** The bins of an mspace beside the cut of its segment: every free chunk is in exactly one place. */
module BinTheory {
  import opened TrieTheory
  import opened HeapTheory

  const SMALL_BINS: nat := 32

  /** Small bins by size, the large chunks with their sizes, and the designated victim. */
  datatype Bins = Bins(small: seq<seq<nat>>, large: map<nat, nat>, dv: nat, dvsize: nat)

  predicate IsSmall(s: nat) {
    s / 8 < SMALL_BINS
  }

  ghost predicate InDv(b: Bins, a: nat, s: nat) {
    b.dvsize != 0 && a == b.dv && s == b.dvsize
  }

  ghost predicate InSmall(b: Bins, a: nat, s: nat) {
    s % 8 == 0 && s / 8 < |b.small| && a in b.small[s / 8]
  }

  ghost predicate InLarge(b: Bins, a: nat, s: nat) {
    a in b.large && b.large[a] == s
  }

  /** The chunk at a, of size s, is kept somewhere. */
  ghost predicate Holds(b: Bins, a: nat, s: nat) {
    InDv(b, a, s) || InSmall(b, a, s) || InLarge(b, a, s)
  }

  ghost predicate NoRepeats(l: seq<nat>) {
    forall i, j {:trigger l[i], l[j]} :: 0 <= i < j < |l| ==> l[i] != l[j]
  }

  /** No chunk is kept twice. */
  ghost predicate BinsOk(b: Bins) {
    && |b.small| == SMALL_BINS
    && (forall i {:trigger b.small[i]} :: 0 <= i < SMALL_BINS ==> NoRepeats(b.small[i]))
    && (forall a {:trigger b.large[a]} :: a in b.large ==> LargeSize(b.large[a]))
    && (b.dvsize != 0 ==>
          b.dv !in b.large && forall i {:trigger b.small[i]} :: 0 <= i < SMALL_BINS ==> b.dv !in b.small[i])
  }

  /** The free chunks below the top, apart from some that are being handled, are exactly those kept. */
  ghost predicate Binned(ch: seq<Tile>, b: Bins, apart: set<nat>) {
    && BinsOk(b)
    && forall a: nat, s: nat {:trigger Holds(b, a, s)} {:trigger IsFree(ch, a, s)} ::
         Holds(b, a, s) <==> IsFree(ch, a, s) && a !in apart
  }

  /** b' keeps what b keeps, except the chunk at a. */
  ghost predicate Removed(b: Bins, b': Bins, a: nat) {
    BinsOk(b') && forall x: nat,
      s: nat {:trigger Holds(b', x, s)} {:trigger Holds(b, x, s)} :: Holds(b', x, s) <==> Holds(b, x, s) && x != a
  }

  /** b' keeps what b keeps, and one chunk more. */
  ghost predicate Added(b: Bins, b': Bins, a: nat, s: nat) {
    BinsOk(b') && forall x: nat,
      t: nat {:trigger Holds(b', x, t)} {:trigger Holds(b, x, t)} ::
        Holds(b', x, t) <==> Holds(b, x, t) || (x == a && t == s)
  }

  /** A chunk is kept with one size only. */
  ghost predicate Unique(b: Bins) {
    BinsOk(b) && forall a: nat, s: nat,
      t: nat {:trigger Holds(b, a, s), Holds(b, a, t)} :: Holds(b, a, s) && Holds(b, a, t) ==> s == t
  }

  lemma BinnedUnique(ch: seq<Tile>, base: nat, limit: nat, b: Bins, apart: set<nat>)
    requires Tiled(ch, base, limit) && Binned(ch, b, apart)
    ensures Unique(b)
  {
    hide Tiled, Holds;
    forall a: nat, s: nat, t: nat | Holds(b, a, s) && Holds(b, a, t)
      ensures s == t
    {
      SizeKnown(ch, base, limit, a, s, t);
    }
  }

  // ----- taking out -----

  function Less(l: seq<nat>, k: nat): (r: seq<nat>)
    requires k < |l|
  {
    l[..k] + l[k + 1..]
  }

  lemma LessFacts(l: seq<nat>, k: nat)
    requires NoRepeats(l) && k < |l|
    ensures NoRepeats(Less(l, k)) && forall x :: x in Less(l, k) <==> x in l && x != l[k]
  {
    var r := Less(l, k);
    forall x | x in l && x != l[k]
      ensures x in r
    {
      var j :| 0 <= j < |l| && l[j] == x;
      assert r[if j < k then j else j - 1] == x;
    }
    forall j | 0 <= j < |r|
      ensures r[j] == l[if j < k then j else j + 1]
    {
    }
  }

  lemma RemoveSmall(b: Bins, i: nat, k: nat)
    requires Unique(b) && i < SMALL_BINS && k < |b.small[i]|
    ensures Removed(b, b.(small := b.small[i := Less(b.small[i], k)]), b.small[i][k])
  {
    var a, l := b.small[i][k], b.small[i];
    var b' := b.(small := b.small[i := Less(l, k)]);
    LessFacts(l, k);
    assert (8 * i) % 8 == 0 && 8 * i / 8 == i && a in b.small[8 * i / 8];
    assert Holds(b, a, 8 * i);
    forall x: nat, s: nat
      ensures Holds(b', x, s) <==> Holds(b, x, s) && x != a
    {
      RemoveSmallAt(b, i, k, x, s);
    }
  }

  lemma RemoveSmallAt(b: Bins, i: nat, k: nat, x: nat, s: nat)
    requires Unique(b) && i < SMALL_BINS && k < |b.small[i]| && Holds(b, b.small[i][k], 8 * i)
    ensures Holds(b.(small := b.small[i := Less(b.small[i], k)]), x, s) <==> Holds(b, x, s) && x != b.small[i][k]
  {
    var a, l := b.small[i][k], b.small[i];
    LessFacts(l, k);
    if x == a && Holds(b, a, s) {
      assert s == 8 * i;
    }
    assert a in l;
    if InLarge(b, a, s) {
      assert Holds(b, a, s);
    }
  }

  lemma RemoveLarge(b: Bins, a: nat)
    requires Unique(b) && a in b.large
    ensures Removed(b, b.(large := b.large - {a}), a)
  {
    var b' := b.(large := b.large - {a});
    assert Holds(b, a, b.large[a]);
    forall x: nat, s: nat
      ensures Holds(b', x, s) <==> Holds(b, x, s) && x != a
    {
      if x == a && Holds(b, a, s) {
        LargeNotSmall(b, a, s);
      }
    }
  }

  lemma LargeNotSmall(b: Bins, a: nat, s: nat)
    requires Unique(b) && a in b.large && Holds(b, a, s)
    ensures s == b.large[a] && !InSmall(b, a, s) && !InDv(b, a, s)
  {
    assert Holds(b, a, b.large[a]);
  }

  lemma RemoveDv(b: Bins)
    requires Unique(b) && b.dvsize != 0
    ensures Removed(b, b.(dv := 0, dvsize := 0), b.dv)
  {
    var b' := b.(dv := 0, dvsize := 0);
    assert Holds(b, b.dv, b.dvsize);
    forall x: nat, s: nat
      ensures Holds(b', x, s) <==> Holds(b, x, s) && x != b.dv
    {
    }
  }

  // ----- putting in -----

  ghost predicate Absent(b: Bins, a: nat) {
    forall s: nat {:trigger Holds(b, a, s)} :: !Holds(b, a, s)
  }

  lemma AbsentFacts(b: Bins, a: nat)
    requires BinsOk(b) && Absent(b, a)
    ensures a !in b.large && forall i {:trigger b.small[i]} :: 0 <= i < SMALL_BINS ==> a !in b.small[i]
    ensures b.dvsize != 0 ==> a != b.dv
  {
    if a in b.large {
      assert Holds(b, a, b.large[a]);
    }
    forall i: nat | i < SMALL_BINS
      ensures a !in b.small[i]
    {
      assert 8 * i % 8 == 0 && 8 * i / 8 == i;
      assert !Holds(b, a, 8 * i);
    }
    assert !Holds(b, a, b.dvsize);
  }

  lemma AddSmall(b: Bins, a: nat, s: nat)
    requires BinsOk(b) && Absent(b, a) && s % 8 == 0 && IsSmall(s)
    ensures Added(b, b.(small := b.small[s / 8 := [a] + b.small[s / 8]]), a, s)
  {
    AbsentFacts(b, a);
    var i := s / 8;
    var b' := b.(small := b.small[i := [a] + b.small[i]]);
    assert NoRepeats(b'.small[i]);
    forall x: nat, t: nat
      ensures Holds(b', x, t) <==> Holds(b, x, t) || (x == a && t == s)
    {
      if t % 8 == 0 && t / 8 == i {
        assert t == s;
      }
    }
  }

  lemma AddLarge(b: Bins, a: nat, s: nat)
    requires BinsOk(b) && Absent(b, a) && LargeSize(s)
    ensures Added(b, b.(large := b.large[a := s]), a, s)
  {
    AbsentFacts(b, a);
    var b' := b.(large := b.large[a := s]);
    forall x: nat, t: nat
      ensures Holds(b', x, t) <==> Holds(b, x, t) || (x == a && t == s)
    {
    }
  }

  lemma AddDv(b: Bins, a: nat, s: nat)
    requires BinsOk(b) && Absent(b, a) && b.dvsize == 0 && s > 0
    ensures Added(b, b.(dv := a, dvsize := s), a, s)
  {
    AbsentFacts(b, a);
    var b' := b.(dv := a, dvsize := s);
    forall x: nat, t: nat
      ensures Holds(b', x, t) <==> Holds(b, x, t) || (x == a && t == s)
    {
    }
  }

  // ----- the bins beside the cut -----

  lemma Unbinned(ch: seq<Tile>, b: Bins, b': Bins, apart: set<nat>, a: nat)
    requires Binned(ch, b, apart) && Removed(b, b', a)
    ensures Binned(ch, b', apart + {a})
  {
    hide Holds, IsFree, BinsOk;
  }

  lemma Rebinned(ch: seq<Tile>, base: nat, limit: nat, b: Bins, b': Bins, a: nat, s: nat)
    requires Tiled(ch, base, limit) && Binned(ch, b, {a}) && IsFree(ch, a, s) && Added(b, b', a, s)
    ensures Binned(ch, b', {})
  {
    hide Holds, IsFree, BinsOk, Tiled;
    forall x: nat, t: nat
      ensures Holds(b', x, t) <==> IsFree(ch, x, t)
    {
      if x == a && IsFree(ch, x, t) {
        SizeKnown(ch, base, limit, a, s, t);
      }
    }
  }

  lemma AbsentApart(ch: seq<Tile>, b: Bins, apart: set<nat>, a: nat)
    requires Binned(ch, b, apart) && a in apart
    ensures Absent(b, a)
  {
    hide Holds, IsFree, BinsOk;
  }

  /** The cut changes where no kept chunk is. */
  lemma CutChanges(ch: seq<Tile>, ch': seq<Tile>, b: Bins, apart: set<nat>, apart': set<nat>)
    requires Binned(ch, b, apart)
    requires forall x: nat, t: nat {:trigger IsFree(ch', x, t)} ::
               IsFree(ch', x, t) && x !in apart' <==> IsFree(ch, x, t) && x !in apart
    ensures Binned(ch', b, apart')
  {
    hide Holds, IsFree, BinsOk;
  }
}
