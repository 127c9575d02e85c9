/** Masks by a capacity less one: when they are remainders, and what they miss when they are not. */
module Masks {
  import opened Arithmetic

  /** Bitwise and. */
  function And(a: nat, b: nat): (r: nat)
    ensures r <= a && r <= b
    decreases a
  {
    if a == 0 || b == 0 then 0
    else (if a % 2 == 1 && b % 2 == 1 then 1 else 0) + 2 * And(a / 2, b / 2)
  }

  // ----- machine words -----

  ghost predicate Odd(a: bv32) {
    a & 1 == 1
  }

  ghost function Half(a: bv32): (h: bv32)
    ensures a != 0 ==> h < a
  {
    a >> 1
  }

  ghost function Both(a: bv32, b: bv32): bv32 {
    a & b
  }

  ghost function Next(a: bv32): bv32 {
    a + 1
  }

  ghost function Digit(odd: bool): nat {
    if odd then 1 else 0
  }

  /** The number that a machine word stands for, by its binary digits. */
  ghost function Num(a: bv32): nat
    decreases a
  {
    if a == 0 then 0 else Digit(Odd(a)) + 2 * Num(Half(a))
  }

  lemma NumZero()
    ensures Num(0) == 0 && !Odd(0) && Half(0) == 0
  {
  }

  lemma HalfOf(a: bv32)
    ensures a != 0 ==> Odd(a) || Half(a) != 0
  {
  }

  lemma {:induction false} NumDigits(a: bv32)
    ensures Num(a) == Digit(Odd(a)) + 2 * Num(Half(a)) && (Num(a) == 0 <==> a == 0)
    decreases a
  {
    hide Odd, Half;
    NumZero();
    HalfOf(a);
    if a != 0 {
      NumDigits(Half(a));
    }
  }

  /** Counting up carries over from an odd word. */
  lemma NextWord(a: bv32)
    requires a != 0xFFFF_FFFF
    ensures (Odd(a) ==> a != 0) && (Odd(Next(a)) <==> !Odd(a))
    ensures Half(a) != 0xFFFF_FFFF && Half(Next(a)) == if Odd(a) then Next(Half(a)) else Half(a)
  {
  }

  lemma {:induction false} NextNum(a: bv32)
    requires a != 0xFFFF_FFFF
    ensures Num(Next(a)) == Num(a) + 1
    decreases a
  {
    hide Odd, Half, Next, Num;
    NextWord(a);
    NumDigits(a);
    NumDigits(Next(a));
    if Odd(a) {
      NextNum(Half(a));
    }
  }

  /** Words are counted up from 0, so this fixes the number of every word. */
  lemma NumCounts(a: bv32)
    requires a != 0xFFFF_FFFF
    ensures Num(0) == 0 && Num(a + 1) == Num(a) + 1
  {
    hide Num;
    NumZero();
    NextNum(a);
  }

  lemma BothDigits(a: bv32, b: bv32)
    ensures Both(0, b) == 0 && Half(Both(a, b)) == Both(Half(a), Half(b)) && (Odd(Both(a, b)) <==> Odd(a) && Odd(b))
  {
  }

  lemma AndNum(a: nat, b: nat, x: bool, y: bool, h: nat, k: nat)
    requires a == Digit(x) + 2 * h && b == Digit(y) + 2 * k
    ensures And(a, b) == Digit(x && y) + 2 * And(h, k)
  {
    assert a / 2 == h && b / 2 == k && (a % 2 == 1 <==> x) && (b % 2 == 1 <==> y);
  }

  lemma {:induction false} BothNum(a: bv32, b: bv32)
    ensures Num(Both(a, b)) == And(Num(a), Num(b))
    decreases a
  {
    hide Odd, Half, Both, Num;
    BothDigits(a, b);
    NumZero();
    if a != 0 {
      BothNum(Half(a), Half(b));
      NumDigits(a);
      NumDigits(b);
      NumDigits(Both(a, b));
      AndNum(Num(a), Num(b), Odd(a), Odd(b), Num(Half(a)), Num(Half(b)));
    }
  }

  /** The operator on machine words is this one on their numbers. */
  lemma AndOnWords(a: bv32, b: bv32)
    ensures Num(a & b) == And(Num(a), Num(b))
  {
    hide Num;
    BothNum(a, b);
  }

  ghost predicate IsPower(c: nat) {
    exists n: nat :: c == Pow2(n)
  }

  lemma PowerOne()
    ensures IsPower(1)
  {
    assert Pow2(0) == 1;
  }

  lemma PowerDoubled(c: nat)
    ensures IsPower(c) ==> IsPower(2 * c)
  {
    if IsPower(c) {
      var n: nat :| c == Pow2(n);
      assert Pow2(n + 1) == 2 * c;
    }
  }

  lemma Halved(i: nat, c: nat)
    requires c > 0
    ensures i % (2 * c) == i % 2 + 2 * (i / 2 % c)
  {
    DivMod(i / 2, c);
    Remainder(i, 2 * c, i / 2 / c, i % 2 + 2 * (i / 2 % c));
  }

  lemma AndOdd(i: nat, c: nat)
    requires c > 0
    ensures And(i, 2 * c - 1) == i % 2 + 2 * And(i / 2, c - 1)
  {
    assert (2 * c - 1) % 2 == 1 && (2 * c - 1) / 2 == c - 1;
  }

  /** The mask of a power of two is the remainder. */
  lemma {:induction false} MaskIsRemainder(i: nat, n: nat)
    ensures And(i, Pow2(n) - 1) == i % Pow2(n)
    decreases n
  {
    hide And;
    if n > 0 {
      var c := Pow2(n - 1);
      MaskIsRemainder(i / 2, n - 1);
      Halved(i, c);
      AndOdd(i, c);
    } else {
      assert And(i, 0) == 0;
    }
  }

  ghost predicate Gives(i: nat, c: nat, s: nat)
    requires c > 0
  {
    And(i, c - 1) == s
  }

  /** No number gives s under the mask. */
  ghost predicate Missed(c: nat, s: nat)
    requires c > 0
  {
    forall i: nat :: !Gives(i, c, s)
  }

  lemma AndHalved(a: nat, b: nat)
    ensures And(a, b) == (if a % 2 == 1 && b % 2 == 1 then 1 else 0) + 2 * And(a / 2, b / 2)
  {
  }

  lemma MissedDoubled(c: nat, s: nat)
    requires c > 0 && Missed(c, s)
    ensures Missed(2 * c, 2 * s)
  {
    forall i: nat
      ensures !Gives(i, 2 * c, 2 * s)
    {
      AndHalved(i, 2 * c - 1);
      assert (2 * c - 1) / 2 == c - 1;
      assert !Gives(i / 2, c, s);
    }
  }

  /** Of a capacity that is not a power of two, some slot is under no mask, so that no search ever looks at it. */
  lemma {:induction false} SlotMissed(c: nat) returns (s: nat)
    requires c > 0 && !IsPower(c)
    ensures s < c && Missed(c, s)
    decreases c
  {
    PowerOne();
    if c % 2 == 1 {
      s := 1;
      forall i: nat
        ensures !Gives(i, c, s)
      {
        AndHalved(i, c - 1);
      }
    } else {
      PowerDoubled(c / 2);
      var h := SlotMissed(c / 2);
      MissedDoubled(c / 2, h);
      s := 2 * h;
    }
  }

  /** A mask is the remainder exactly for powers of two. */
  lemma MaskExactly(c: nat)
    requires c > 0
    ensures (forall i: nat {:trigger And(i, c - 1)} :: And(i, c - 1) == i % c) <==> IsPower(c)
  {
    if IsPower(c) {
      var n: nat :| c == Pow2(n);
      forall i: nat
        ensures And(i, c - 1) == i % c
      {
        MaskIsRemainder(i, n);
      }
    } else {
      var s := SlotMissed(c);
      Remainder(s, c, 0, s);
      assert !Gives(s, c, s);
      var i: nat := s;
      assert And(i, c - 1) != i % c;
    }
  }
}
