/** The bits of a 32-bit word, least significant first, and how exclusive or and shifting act on them. */
module WordBits {
  predicate Odd(x: bv32) { x & 1 == 1 }

  function Half(x: bv32): bv32 { x >> 1 }

  function XorWord(x: bv32, y: bv32): bv32 { x ^ y }

  type Bits = seq<bool>

  function Zeros(n: nat): Bits {
    seq(n, _ => false)
  }

  function Xor(x: Bits, y: Bits): (r: Bits)
    requires |x| == |y|
    ensures |r| == |x|
    ensures forall i :: 0 <= i < |x| ==> r[i] == (x[i] != y[i])
  {
    seq(|x|, i requires 0 <= i < |x| => x[i] != y[i])
  }

  /** The low `n` bits of a word. */
  function LowBits(x: bv32, n: nat): (r: Bits)
    ensures |r| == n
  {
    if n == 0 then [] else [Odd(x)] + LowBits(Half(x), n - 1)
  }

  function Halves(x: bv32, n: nat): bv32 {
    if n == 0 then x else Halves(Half(x), n - 1)
  }

  type Register = r: Bits | |r| == 32 witness Zeros(32)

  function RegisterOf(x: bv32): Register {
    LowBits(x, 32)
  }

  lemma XorParity(x: bv32, y: bv32)
    ensures Odd(XorWord(x, y)) == (Odd(x) != Odd(y))
  {
  }

  lemma XorHalf(x: bv32, y: bv32)
    ensures Half(XorWord(x, y)) == XorWord(Half(x), Half(y))
  {
  }

  lemma {:induction false} LowBitAt(x: bv32, n: nat, i: nat)
    requires i < n
    ensures LowBits(x, n)[i] == Odd(Halves(x, i))
    decreases n
  {
    if i > 0 {
      LowBitAt(Half(x), n - 1, i - 1);
    }
  }

  lemma XorCons(a: bool, x: Bits, b: bool, y: Bits)
    requires |x| == |y|
    ensures Xor([a] + x, [b] + y) == [a != b] + Xor(x, y)
  {
  }

  lemma {:induction false} LowBitsXor(x: bv32, y: bv32, n: nat)
    ensures LowBits(XorWord(x, y), n) == Xor(LowBits(x, n), LowBits(y, n))
    decreases n
  {
    if n > 0 {
      XorParity(x, y);
      XorHalf(x, y);
      LowBitsXor(Half(x), Half(y), n - 1);
      XorCons(Odd(x), LowBits(Half(x), n - 1), Odd(y), LowBits(Half(y), n - 1));
    }
  }

  lemma ConsAppend(a: bool, x: Bits, y: Bits)
    ensures [a] + (x + y) == [a] + x + y
  {
  }

  lemma {:induction false} LowBitsSplit(x: bv32, m: nat, n: nat)
    ensures LowBits(x, m + n) == LowBits(x, m) + LowBits(Halves(x, m), n)
    decreases m
  {
    if m == 0 {
      assert LowBits(x, 0) + LowBits(x, n) == LowBits(x, n);
    } else {
      LowBitsSplit(Half(x), m - 1, n);
      ConsAppend(Odd(x), LowBits(Half(x), m - 1), LowBits(Halves(x, m), n));
    }
  }

  lemma {:induction false} LowBitsZero(n: nat)
    ensures LowBits(0, n) == Zeros(n)
  {
    if n > 0 {
      LowBitsZero(n - 1);
    }
  }

  lemma {:induction false} HalvesSplit(x: bv32, m: nat, n: nat)
    ensures Halves(x, m + n) == Halves(Halves(x, m), n)
    decreases m
  {
    if m > 0 {
      HalvesSplit(Half(x), m - 1, n);
    }
  }

  lemma Shifts(x: bv32)
    ensures Half(Half(x)) == x >> 2 && (x >> 2) >> 2 == x >> 4 && (x >> 4) >> 4 == x >> 8
  {
  }

  lemma Halves2(x: bv32)
    ensures Halves(x, 2) == x >> 2
  {
    assert Halves(x, 2) == Halves(Half(x), 1) == Half(Half(x));
    Shifts(x);
  }

  lemma Halves4(x: bv32)
    ensures Halves(x, 4) == x >> 4
  {
    HalvesSplit(x, 2, 2);
    Halves2(x);
    Halves2(x >> 2);
    Shifts(x);
  }

  lemma Halves8(x: bv32)
    ensures Halves(x, 8) == x >> 8
  {
    HalvesSplit(x, 4, 4);
    Halves4(x);
    Halves4(x >> 4);
    Shifts(x);
  }

  lemma ShiftedOut(x: bv32)
    ensures (((x >> 8) >> 8) >> 8) >> 8 == 0
  {
  }

  lemma Halves32(x: bv32)
    ensures Halves(x, 32) == 0
  {
    HalvesSplit(x, 8, 24);
    Halves8(x);
    HalvesSplit(x >> 8, 8, 16);
    Halves8(x >> 8);
    HalvesSplit((x >> 8) >> 8, 8, 8);
    Halves8((x >> 8) >> 8);
    Halves8(((x >> 8) >> 8) >> 8);
    ShiftedOut(x);
  }

  lemma HalfZero(z: bv32)
    requires !Odd(z) && Half(z) == 0
    ensures z == 0
  {
  }

  lemma {:induction false} LowBitsDetermineZero(z: bv32, n: nat)
    requires LowBits(z, n) == Zeros(n) && Halves(z, n) == 0
    ensures z == 0
    decreases n
  {
    if n > 0 {
      assert LowBits(z, n)[0] == Odd(z) && LowBits(z, n)[1..] == LowBits(Half(z), n - 1);
      assert Zeros(n)[1..] == Zeros(n - 1);
      LowBitsDetermineZero(Half(z), n - 1);
      HalfZero(z);
    }
  }

  lemma XorWordZero(x: bv32, y: bv32)
    ensures XorWord(x, y) == 0 ==> x == y
  {
  }

  lemma LowBitsInjective(x: bv32, y: bv32, n: nat)
    requires LowBits(x, n) == LowBits(y, n)
    requires Halves(XorWord(x, y), n) == 0
    ensures x == y
  {
    LowBitsXor(x, y, n);
    assert Xor(LowBits(x, n), LowBits(y, n)) == Zeros(n);
    LowBitsDetermineZero(XorWord(x, y), n);
    XorWordZero(x, y);
  }

  lemma RegisterInjective(x: bv32, y: bv32)
    requires RegisterOf(x) == RegisterOf(y)
    ensures x == y
  {
    Halves32(XorWord(x, y));
    LowBitsInjective(x, y, 32);
  }

  lemma HalfAgrees(x: bv32)
    ensures RegisterOf(Half(x)) == RegisterOf(x)[1..] + [false]
  {
    LowBitsSplit(Half(x), 31, 1);
    Halves32(x);
    assert Halves(Half(x), 31) == Halves(x, 32);
    assert LowBits(0, 1) == [false];
  }
}
