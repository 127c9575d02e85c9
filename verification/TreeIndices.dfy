/** Which tree bin a size belongs to, and the bits by which a bin's trie is searched. */
module TreeIndices {
  import opened Arithmetic

  const TREE_BINS: nat := 32
  const MIN_LARGE_SIZE: nat := 0x100
  const WORD: nat := 0x1_0000_0000_0000_0000
  const HALF: nat := 0x8000_0000_0000_0000
  /** Sizes whose index survives the narrowing to 32 bits. */
  const INDEXABLE: nat := 0x100_0000_0000

  lemma {:induction false} PowAdd(a: nat, b: nat)
    ensures Pow2(a) * Pow2(b) == Pow2(a + b)
    decreases b
  {
    if b > 0 {
      PowAdd(a, b - 1);
      assert Pow2(a) * Pow2(b) == 2 * (Pow2(a) * Pow2(b - 1));
    }
  }

  lemma {:induction false} PowMono(a: nat, b: nat)
    requires a <= b
    ensures Pow2(a) <= Pow2(b)
    decreases b
  {
    if a < b {
      PowMono(a, b - 1);
    }
  }

  lemma PowValues()
    ensures Pow2(7) == 0x80 && Pow2(8) == 0x100 && Pow2(16) == 0x1_0000 && Pow2(22) == 0x40_0000
            && Pow2(23) == 0x80_0000
    ensures Pow2(24) == 0x100_0000 && Pow2(64) == WORD
  {
    assert Pow2(4) == 16;
    assert Pow2(8) == 0x100;
    PowAdd(8, 8);
    PowAdd(16, 7);
    PowAdd(16, 6);
    PowAdd(16, 8);
    PowAdd(16, 16);
    PowAdd(32, 32);
  }

  /** The position of the highest bit that is set. */
  function Log2(x: nat): (k: nat)
    requires x > 0
    ensures Pow2(k) <= x < Pow2(k + 1)
  {
    if x == 1 then 0 else 1 + Log2(x / 2)
  }

  /** The bin of a size: its highest bit and the next one below. */
  function TreeIndex(s: nat): (i: nat)
    ensures i < TREE_BINS
  {
    var x := s / 0x100 % 0x1_0000_0000;
    if x == 0 then 0
    else if x > 0xFFFF then TREE_BINS - 1
    else
      var k := Log2(x);
      LogBound(x);
      2 * k + s / Pow2(k + 7) % 2
  }

  lemma LogBound(x: nat)
    requires 0 < x <= 0xFFFF
    ensures Log2(x) <= 15
  {
    PowValues();
    if Log2(x) > 15 {
      PowMono(16, Log2(x));
    }
  }

  /** The size of the smallest chunk in a bin. */
  function MinSize(i: nat): nat {
    Pow2(i / 2 + 8) + (if i % 2 == 1 then Pow2(i / 2 + 7) else 0)
  }

  predicate InBin(i: nat, s: nat) {
    i < TREE_BINS && MinSize(i) <= s && (i < TREE_BINS - 1 ==> s < MinSize(i + 1))
  }

  lemma PowUp(k: nat)
    ensures Pow2(k + 8) == 2 * Pow2(k + 7) && Pow2(k + 9) == 4 * Pow2(k + 7)
  {
    assert Pow2(k + 8) == 2 * Pow2(k + 7);
    assert Pow2(k + 9) == 2 * Pow2(k + 8);
  }

  lemma SizeRange(s: nat, k: nat)
    requires Pow2(k) <= s / 0x100 < Pow2(k + 1)
    ensures 2 * Pow2(k + 7) <= s < 4 * Pow2(k + 7)
  {
    var a, b := Pow2(k), Pow2(k + 1);
    PowAdd(k, 8);
    PowAdd(k + 1, 8);
    PowUp(k);
    assert Pow2(8) == 0x100 by { PowValues(); }
    assert a * 0x100 <= s < b * 0x100;
  }

  lemma NextBit(s: nat, p: nat)
    requires 2 * p <= s < 4 * p
    ensures s / p % 2 == if s < 3 * p then 0 else 1
  {
    if s < 3 * p {
      Remainder(s, p, 2, s - 2 * p);
    } else {
      Remainder(s, p, 3, s - 3 * p);
    }
  }

  /** Sizes below the limit go where they belong. */
  lemma IndexRight(s: nat)
    requires MIN_LARGE_SIZE <= s < INDEXABLE
    ensures InBin(TreeIndex(s), s)
  {
    hide Pow2, Log2;
    var x := s / 0x100;
    assert x % 0x1_0000_0000 == x;
    if x > 0xFFFF {
      LastBin(s);
    } else {
      var k := Log2(x);
      LogBound(x);
      SizeRange(s, k);
      NextBit(s, Pow2(k + 7));
      PowUp(k);
      var i := 2 * k + (if s < 3 * Pow2(k + 7) then 0 else 1);
      assert TreeIndex(s) == i && i / 2 == k;
      assert (i + 1) / 2 == if s < 3 * Pow2(k + 7) then k else k + 1;
    }
  }

  lemma LastBin(s: nat)
    requires s / 0x100 > 0xFFFF
    ensures InBin(TREE_BINS - 1, s)
  {
    PowValues();
    assert MinSize(31) == Pow2(23) + Pow2(22);
  }

  /** From the limit on, the right bin is the last, and the narrowed value tells whether it is chosen. */
  lemma IndexRightExactly(s: nat)
    requires s >= MIN_LARGE_SIZE
    ensures InBin(TreeIndex(s), s) <==> s < INDEXABLE || s / 0x100 % 0x1_0000_0000 >= 0xC000
  {
    hide Pow2, Log2, TreeIndex;
    if s < INDEXABLE {
      IndexRight(s);
    } else {
      LastBin(s);
      LastIndex(s);
      if TreeIndex(s) < TREE_BINS - 1 {
        MinSizeMono(TreeIndex(s) + 1, TREE_BINS - 1);
        assert MinSize(TREE_BINS - 1) < INDEXABLE by { PowValues(); }
      }
    }
  }

  /** The limit itself is narrowed to nothing and lands in the bin of the smallest sizes. */
  lemma WrongBin()
    ensures TreeIndex(INDEXABLE) == 0 && !InBin(TreeIndex(INDEXABLE), INDEXABLE)
  {
    hide Pow2, Log2, InBin;
    IndexRightExactly(INDEXABLE);
  }

  /** Narrowing does not touch the bit that is looked at. */
  lemma NarrowedBit(s: nat, x: nat)
    requires x == s / 0x100 % 0x1_0000_0000
    ensures s / 0x40_0000 % 2 == x / 0x4000 % 2
  {
    var y := s / 0x100;
    var q, a, c := y / 0x1_0000_0000, y / 0x4000, x / 0x4000;
    Remainder(s, 0x40_0000, a, s - 0x40_0000 * a);
    assert y == q * 0x1_0000_0000 + x && x == c * 0x4000 + x % 0x4000;
    Remainder(y, 0x4000, q * 0x4_0000 + c, x % 0x4000);
    Remainder(a, 2, q * 0x2_0000 + c / 2, c % 2);
  }

  lemma LastIndex(s: nat)
    ensures TreeIndex(s) == TREE_BINS - 1 <==> s / 0x100 % 0x1_0000_0000 >= 0xC000
  {
    hide Pow2, Log2;
    var x := s / 0x100 % 0x1_0000_0000;
    if 0 < x <= 0xFFFF {
      LogBound(x);
      var k := Log2(x);
      Pow15();
      if k == 15 {
        NarrowedBit(s, x);
        assert Pow2(22) == 0x40_0000 by { PowValues(); }
        assert TreeIndex(s) == 30 + x / 0x4000 % 2;
        assert 2 <= x / 0x4000 <= 3;
      } else {
        PowMono(k + 1, 15);
        assert s / Pow2(k + 7) % 2 <= 1;
      }
    }
  }

  lemma Pow15()
    ensures Pow2(15) == 0x8000 && Pow2(16) == 0x1_0000
  {
    PowValues();
    assert Pow2(16) == 2 * Pow2(15);
  }

  /** The sizes of a lower bin are smaller. */
  lemma {:induction false} BinsOrdered(i: nat, j: nat, s: nat, t: nat)
    requires i < j && InBin(i, s) && InBin(j, t)
    ensures s < t
    decreases j
  {
    MinSizeMono(i + 1, j);
  }

  lemma {:induction false} MinSizeMono(i: nat, j: nat)
    requires i <= j
    ensures MinSize(i) <= MinSize(j)
    decreases j
  {
    if i < j {
      MinSizeMono(i, j - 1);
      MinSizeStep(j - 1);
    }
  }

  lemma MinSizeStep(i: nat)
    ensures MinSize(i) <= MinSize(i + 1)
  {
    var k := i / 2;
    assert Pow2(k + 8) == 2 * Pow2(k + 7) && Pow2(k + 9) == 2 * Pow2(k + 8);
    if i % 2 == 0 {
      assert (i + 1) / 2 == k;
    } else {
      assert (i + 1) / 2 == k + 1;
    }
  }

  // ----- words and their bits, highest first -----

  function Shl(w: nat): (r: nat)
    requires w < WORD
    ensures r < WORD && r == 2 * w % WORD
  {
    if w >= HALF then 2 * w - WORD else 2 * w
  }

  function BitsOf(w: nat, n: nat): (r: seq<bool>)
    requires w < WORD
    ensures |r| == n
    decreases n
  {
    if n == 0 then [] else [w >= HALF] + BitsOf(Shl(w), n - 1)
  }

  /** The word after shifting out the first d bits. */
  function Shifted(w: nat, d: nat): (r: nat)
    requires w < WORD
    ensures r < WORD
  {
    if d == 0 then w else Shl(Shifted(w, d - 1))
  }

  lemma {:induction false} ShiftedBit(w: nat, n: nat, d: nat)
    requires w < WORD && d < n
    ensures BitsOf(w, n)[d] <==> Shifted(w, d) >= HALF
    decreases d
  {
    if d > 0 {
      ShiftedBit(Shl(w), n - 1, d - 1);
      ShiftedShl(w, d - 1);
    }
  }

  lemma {:induction false} ShiftedShl(w: nat, d: nat)
    requires w < WORD
    ensures Shifted(Shl(w), d) == Shifted(w, d + 1)
    decreases d
  {
    if d > 0 {
      ShiftedShl(w, d - 1);
    }
  }

  /** Words that agree on the first d bits are ordered by the next one. */
  lemma {:induction false} BitsOrder(v: nat, w: nat, n: nat, d: nat)
    requires v < WORD && w < WORD && d < n
    requires BitsOf(v, n)[..d] == BitsOf(w, n)[..d] && !BitsOf(v, n)[d] && BitsOf(w, n)[d]
    ensures v < w
    decreases d
  {
    if d > 0 {
      var bv, bw := BitsOf(v, n), BitsOf(w, n);
      assert bv[..d][0] == bw[..d][0];
      assert bv[..d][1..] == BitsOf(Shl(v), n - 1)[..d - 1];
      assert bw[..d][1..] == BitsOf(Shl(w), n - 1)[..d - 1];
      BitsOrder(Shl(v), Shl(w), n - 1, d - 1);
    }
  }

  /** Words that agree on their first bits differ only by the rest. */
  lemma {:induction false} BitsClose(v: nat, w: nat, n: nat)
    requires v < WORD && w < WORD && n <= 64 && BitsOf(v, n) == BitsOf(w, n)
    ensures v < w + Pow2(64 - n) && w < v + Pow2(64 - n)
    decreases n
  {
    if n == 0 {
      PowValues();
    } else {
      var bv, bw := BitsOf(v, n), BitsOf(w, n);
      assert bv[0] == bw[0] && bv[1..] == BitsOf(Shl(v), n - 1) && bw[1..] == BitsOf(Shl(w), n - 1);
      BitsClose(Shl(v), Shl(w), n - 1);
      assert Pow2(64 - (n - 1)) == 2 * Pow2(64 - n);
    }
  }

  /** All 64 bits determine the word. */
  lemma BitsSame(v: nat, w: nat)
    requires v < WORD && w < WORD && BitsOf(v, 64) == BitsOf(w, 64)
    ensures v == w
  {
    BitsClose(v, w, 64);
  }

  // ----- the word that a trie looks at -----

  /** Brings the first bit that distinguishes sizes of the bin to the top. */
  function LeftShift(i: nat): nat
    requires i < TREE_BINS
  {
    if i == TREE_BINS - 1 then 0 else 63 - (i / 2 + 6)
  }

  function SizeBits(i: nat, s: nat): (w: nat)
    requires i < TREE_BINS
    ensures w < WORD
  {
    s * Pow2(LeftShift(i)) % WORD
  }

  /** In a bin, the bits looked at are those of the distance from the bin's smallest size. */
  lemma SizeBitsLow(i: nat, s: nat)
    requires i < TREE_BINS - 1 && InBin(i, s)
    ensures SizeBits(i, s) == (s - MinSize(i)) * Pow2(LeftShift(i))
  {
    hide Pow2;
    var k := i / 2;
    var m, p := Pow2(LeftShift(i)), Pow2(k + 7);
    assert LeftShift(i) == 57 - k;
    assert p * m == WORD by {
      PowAdd(k + 7, 57 - k);
      PowValues();
    }
    PowUp(k);
    var q := 2 + i % 2;
    assert MinSize(i) == q * p;
    assert MinSize(i + 1) == (q + 1) * p by {
      if i % 2 == 0 {
        assert (i + 1) / 2 == k;
      } else {
        assert (i + 1) / 2 == k + 1;
      }
    }
    var x := s - MinSize(i);
    Product(x, p, m);
    assert s * m == q * WORD + x * m by {
      assert s * m == (q * p + x) * m == q * p * m + x * m;
      assert q * p * m == q * (p * m);
    }
    Remainder(s * m, WORD, q, x * m);
  }

  lemma Product(x: nat, p: nat, m: nat)
    requires x < p && m > 0
    ensures x * m < p * m
  {
  }

  /** The words keep the order of the sizes. */
  lemma SizeBitsOrder(i: nat, s: nat, t: nat)
    requires InBin(i, s) && InBin(i, t) && s < WORD && t < WORD
    ensures s < t <==> SizeBits(i, s) < SizeBits(i, t)
  {
    hide Pow2;
    if i < TREE_BINS - 1 {
      SizeBitsLow(i, s);
      SizeBitsLow(i, t);
      var m, x, y := Pow2(LeftShift(i)), s - MinSize(i), t - MinSize(i);
      if s < t {
        Product(x, y, m);
      } else if t < s {
        Product(y, x, m);
      }
    } else {
      assert Pow2(0) == 1 by { PowZero(); }
    }
  }

  lemma PowZero()
    ensures Pow2(0) == 1
  {
  }
}
