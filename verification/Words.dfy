/** 32-bit words. The bit operations are wrapped so that proofs can treat them as plain functions. */
module Words {

  function Or(a: bv32, b: bv32): bv32 {
    a | b
  }

  function AndNot(a: bv32, b: bv32): bv32 {
    a & !b
  }

  function Double(m: bv32): bv32 {
    m << 1
  }

  function Half(m: bv32): bv32 {
    m >> 1
  }

  predicate Odd(m: bv32) {
    m & 1 == 1
  }

  /** Bit k of m: (m >> k) & 1. */
  predicate Bit(m: bv32, k: nat) {
    if k == 0 then Odd(m) else Bit(Half(m), k - 1)
  }

  /** m << i, one place at a time. */
  function Shl(m: bv32, i: nat): bv32 {
    if i == 0 then m else Double(Shl(m, i - 1))
  }

  /** 1U << k. */
  function One(k: nat): bv32
    requires k < 32
  {
    match k
    case 0 => 0x1 case 1 => 0x2 case 2 => 0x4 case 3 => 0x8 case 4 => 0x10 case 5 => 0x20 case 6 => 0x40 case 7 => 0x80
    case 8 => 0x100 case 9 => 0x200 case 10 => 0x400 case 11 => 0x800 case 12 => 0x1000 case 13 => 0x2000 case 14 => 0x4000 case 15 => 0x8000
    case 16 => 0x10000 case 17 => 0x20000 case 18 => 0x40000 case 19 => 0x80000 case 20 => 0x100000 case 21 => 0x200000 case 22 => 0x400000 case 23 => 0x800000
    case 24 => 0x1000000 case 25 => 0x2000000 case 26 => 0x4000000 case 27 => 0x8000000 case 28 => 0x10000000 case 29 => 0x20000000 case 30 => 0x40000000
    case _ => 0x80000000
  }

  /** (1U << n) - 1. */
  function Low(n: nat): bv32
    requires n <= 31
  {
    One(n) - 1
  }

  /** a has at most n bits: n halvings leave nothing. */
  predicate Below(a: bv32, n: nat) {
    if n == 0 then a == 0 else Below(Half(a), n - 1)
  }

  // ----- facts about single words

  lemma OddOr(a: bv32, b: bv32)
    ensures Odd(Or(a, b)) <==> Odd(a) || Odd(b)
  {
  }

  lemma HalfOr(a: bv32, b: bv32)
    ensures Half(Or(a, b)) == Or(Half(a), Half(b))
  {
  }

  lemma OddAndNot(a: bv32, b: bv32)
    ensures Odd(AndNot(a, b)) <==> Odd(a) && !Odd(b)
  {
  }

  lemma HalfAndNot(a: bv32, b: bv32)
    ensures Half(AndNot(a, b)) == AndNot(Half(a), Half(b))
  {
  }

  lemma DoubleOr(a: bv32, b: bv32)
    ensures Double(Or(a, b)) == Or(Double(a), Double(b))
  {
  }

  lemma Zero()
    ensures !Odd(0) && Half(0) == 0 && Double(0) == 0 && Low(0) == 0
  {
  }

  lemma HalfDetermines(a: bv32, b: bv32)
    requires Half(a) == Half(b) && (Odd(a) <==> Odd(b))
    ensures a == b
  {
  }

  function Half8(a: bv32): bv32 {
    Half(Half(Half(Half(Half(Half(Half(Half(a))))))))
  }

  lemma HalfOut(a: bv32)
    ensures Half8(Half8(Half8(Half8(a)))) == 0
  {
  }

  lemma Below8(a: bv32, n: nat)
    requires Below(Half8(a), n)
    ensures Below(a, n + 8)
  {
    hide Half;
    var b := Half(Half(Half(Half(a))));
    assert Below(Half(Half(Half(b))), n + 1);
    assert Below(Half(b), n + 3);
    assert Below(b, n + 4);
    assert Below(Half(Half(a)), n + 6);
  }

  lemma AllBelow(a: bv32)
    ensures Below(a, 32)
  {
    hide Half, Half8;
    HalfOut(a);
    Below8(Half8(Half8(Half8(a))), 0);
    Below8(Half8(Half8(a)), 8);
    Below8(Half8(a), 16);
    Below8(a, 24);
  }

  lemma OneFacts(k: nat)
    requires k < 31
    ensures One(k + 1) == Double(One(k)) && Half(One(k + 1)) == One(k) && !Odd(One(k + 1))
  {
    match k {
    case 0 => case 1 => case 2 => case 3 => case 4 => case 5 => case 6 => case 7 => case 8 => case 9 => case 10 => case 11 => case 12 => case 13 => case 14 => case 15 =>
    case 16 => case 17 => case 18 => case 19 => case 20 => case 21 => case 22 => case 23 => case 24 => case 25 => case 26 => case 27 => case 28 => case 29 => case 30 =>
    }
  }

  lemma OneZero()
    ensures Odd(One(0)) && Half(One(0)) == 0
  {
  }

  lemma LowStep(n: nat)
    requires n < 31
    ensures Low(n + 1) == Or(Low(n), One(n))
  {
    match n {
    case 0 => case 1 => case 2 => case 3 => case 4 => case 5 => case 6 => case 7 => case 8 => case 9 => case 10 => case 11 => case 12 => case 13 => case 14 => case 15 =>
    case 16 => case 17 => case 18 => case 19 => case 20 => case 21 => case 22 => case 23 => case 24 => case 25 => case 26 => case 27 => case 28 => case 29 => case 30 =>
    }
  }

  // ----- bits of combined words

  lemma {:induction false} BitOfOr(a: bv32, b: bv32, k: nat)
    ensures Bit(Or(a, b), k) <==> Bit(a, k) || Bit(b, k)
    decreases k
  {
    hide Or, Odd, Half;
    if k == 0 {
      OddOr(a, b);
    } else {
      HalfOr(a, b);
      BitOfOr(Half(a), Half(b), k - 1);
    }
  }

  lemma {:induction false} BitOfAndNot(a: bv32, b: bv32, k: nat)
    ensures Bit(AndNot(a, b), k) <==> Bit(a, k) && !Bit(b, k)
    decreases k
  {
    hide AndNot, Odd, Half;
    if k == 0 {
      OddAndNot(a, b);
    } else {
      HalfAndNot(a, b);
      BitOfAndNot(Half(a), Half(b), k - 1);
    }
  }

  lemma {:induction false} BitOfZero(k: nat)
    ensures !Bit(0, k)
  {
    hide Odd, Half, Double, Low;
    Zero();
    if k > 0 {
      BitOfZero(k - 1);
    }
  }

  lemma {:induction false} BitOfOne(i: nat, k: nat)
    requires i < 32
    ensures Bit(One(i), k) <==> i == k
  {
    hide Odd, Half, One, Double;
    if i == 0 {
      OneZero();
      if k > 0 {
        BitOfZero(k - 1);
      }
    } else {
      OneFacts(i - 1);
      if k > 0 {
        BitOfOne(i - 1, k - 1);
      }
    }
  }

  lemma {:induction false} ShiftOr(a: bv32, b: bv32, i: nat)
    ensures Shl(Or(a, b), i) == Or(Shl(a, i), Shl(b, i))
  {
    hide Or, Double;
    if i > 0 {
      ShiftOr(a, b, i - 1);
      DoubleOr(Shl(a, i - 1), Shl(b, i - 1));
    }
  }

  lemma {:induction false} ShiftZero(i: nat)
    ensures Shl(Low(0), i) == 0
  {
    hide Double, Low, Half, Odd;
    Zero();
    if i > 0 {
      ShiftZero(i - 1);
    }
  }

  lemma {:induction false} OneShift(n: nat, i: nat)
    requires n + i < 32
    ensures Shl(One(n), i) == One(n + i)
  {
    hide One, Double, Half, Odd;
    if i > 0 {
      OneShift(n, i - 1);
      OneFacts(n + i - 1);
    }
  }

  /** n ones shifted left by i are exactly the bits i..i+n-1. */
  lemma {:induction false} BitsOfRun(n: nat, i: nat, k: nat)
    requires n <= 31 && i + n <= 32
    ensures Bit(Shl(Low(n), i), k) <==> i <= k < i + n
  {
    hide Bit, Low, Shl, One, Or;
    if n == 0 {
      ShiftZero(i);
      BitOfZero(k);
    } else {
      BitsOfRun(n - 1, i, k);
      LowStep(n - 1);
      ShiftOr(Low(n - 1), One(n - 1), i);
      OneShift(n - 1, i);
      BitOfOr(Shl(Low(n - 1), i), One(n - 1 + i), k);
      BitOfOne(n - 1 + i, k);
    }
  }

  lemma {:induction false} SameLowBits(a: bv32, b: bv32, n: nat)
    requires Below(a, n) && Below(b, n)
    requires forall k :: 0 <= k < n ==> (Bit(a, k) <==> Bit(b, k))
    ensures a == b
    decreases n
  {
    hide Half, Odd;
    if n > 0 {
      forall k | 0 <= k < n - 1
        ensures Bit(Half(a), k) <==> Bit(Half(b), k)
      {
        assert Bit(a, k + 1) <==> Bit(b, k + 1);
      }
      SameLowBits(Half(a), Half(b), n - 1);
      assert Bit(a, 0) <==> Bit(b, 0);
      HalfDetermines(a, b);
    }
  }

  /** A word is determined by its 32 bits. */
  lemma SameBits(a: bv32, b: bv32)
    requires forall k :: 0 <= k < 32 ==> (Bit(a, k) <==> Bit(b, k))
    ensures a == b
  {
    hide Below, Bit;
    AllBelow(a);
    AllBelow(b);
    SameLowBits(a, b, 32);
  }

  lemma RunOf31()
    ensures Shl(Low(31), 1) == 0xFFFFFFFE
  {
    assert Shl(Low(31), 0) == Low(31);
  }
}
