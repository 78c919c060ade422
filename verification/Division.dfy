/** Polynomial division over GF(2), one message bit at a time: the algebra behind the checksum. */
module Division {
  import opened WordBits

  const POLYNOMIAL: bv32 := 0xEDB88320

  function Step(x: Register): Register {
    var down := x[1..] + [false];
    if x[0] then Xor(down, RegisterOf(POLYNOMIAL)) else down
  }

  function Steps(x: Register, n: nat): Register
    decreases n
  {
    if n == 0 then x else Steps(Step(x), n - 1)
  }

  function Feed(x: Register, bit: bool): Register {
    Step(x[0 := x[0] != bit])
  }

  /** The division of a whole message. */
  function Divide(x: Register, m: Bits): Register
    decreases |m|
  {
    if m == [] then x else Divide(Feed(x, m[0]), m[1..])
  }

  lemma TopBitOfPolynomial()
    ensures RegisterOf(POLYNOMIAL)[31]
  {
    LowBitAt(POLYNOMIAL, 32, 31);
    HalvesSplit(POLYNOMIAL, 24, 7);
    HalvesSplit(POLYNOMIAL, 8, 16);
    HalvesSplit(POLYNOMIAL >> 8, 8, 8);
    Halves8(POLYNOMIAL);
    Halves8(POLYNOMIAL >> 8);
    Halves8((POLYNOMIAL >> 8) >> 8);
    assert Halves(0xED, 7) == Halves(0x76, 6) == Halves(0x3B, 5) == Halves(0x1D, 4);
    assert Halves(0x1D, 4) == Halves(0xE, 3) == Halves(0x7, 2) == Halves(0x3, 1) == 1;
  }

  lemma StepLinear(x: Register, y: Register)
    ensures Step(Xor(x, y)) == Xor(Step(x), Step(y))
  {
  }

  /** The top bit after a step is the bit shifted out; the others are shifted, and flipped if it was set. */
  lemma StepBits(x: Register)
    ensures Step(x)[31] == x[0]
    ensures forall i :: 0 <= i < 31 ==> Step(x)[i] == (x[i + 1] != (x[0] && RegisterOf(POLYNOMIAL)[i]))
  {
    TopBitOfPolynomial();
  }

  lemma StepInjective(x: Register, y: Register)
    requires Step(x) == Step(y)
    ensures x == y
  {
    StepBits(x);
    StepBits(y);
    forall i | 0 < i < 32
      ensures x[i] == y[i]
    {
      assert Step(x)[i - 1] == Step(y)[i - 1];
    }
  }

  lemma StepsFront(x: Register, n: nat)
    requires n > 0
    ensures Steps(x, n) == Steps(Step(x), n - 1)
  {
  }

  lemma {:induction false} StepsInjective(x: Register, y: Register, n: nat)
    requires Steps(x, n) == Steps(y, n)
    ensures x == y
    decreases n
  {
    if n > 0 {
      StepsFront(x, n);
      StepsFront(y, n);
      StepsInjective(Step(x), Step(y), n - 1);
      StepInjective(x, y);
    }
  }

  lemma {:induction false} DivideInjective(x: Register, y: Register, m: Bits)
    requires Divide(x, m) == Divide(y, m)
    ensures x == y
    decreases |m|
  {
    if m != [] {
      DivideInjective(Feed(x, m[0]), Feed(y, m[0]), m[1..]);
      StepInjective(x[0 := x[0] != m[0]], y[0 := y[0] != m[0]]);
      forall i | 0 <= i < 32
        ensures x[i] == y[i]
      {
        assert x[0 := x[0] != m[0]][i] == y[0 := y[0] != m[0]][i];
      }
    }
  }

  lemma {:induction false} DivideAppend(x: Register, a: Bits, b: Bits)
    ensures Divide(x, a + b) == Divide(Divide(x, a), b)
    decreases |a|
  {
    if a == [] {
      assert a + b == b;
    } else {
      DivideAppend(Feed(x, a[0]), a[1..], b);
      assert (a + b)[1..] == a[1..] + b;
    }
  }

  /** Up to 32 message bits may be added to the register at once and then stepped over. */
  lemma {:induction false} DivideBlock(x: Register, m: Bits)
    requires |m| <= 32
    ensures Divide(x, m) == Steps(Xor(x, m + Zeros(32 - |m|)), |m|)
    decreases |m|
  {
    if m == [] {
      assert Xor(x, Zeros(32)) == x;
    } else {
      var y := x[0 := x[0] != m[0]];
      var rest := [false] + m[1..] + Zeros(32 - |m|);
      XorHead(x, m);
      StepLinear(y, rest);
      StepShifts(m[1..]);
      DivideBlock(Step(y), m[1..]);
    }
  }

  lemma XorHead(x: Register, m: Bits)
    requires 0 < |m| <= 32
    ensures Xor(x, m + Zeros(32 - |m|)) == Xor(x[0 := x[0] != m[0]], [false] + m[1..] + Zeros(32 - |m|))
  {
  }

  lemma StepShifts(m: Bits)
    requires |m| < 32
    ensures Step([false] + m + Zeros(31 - |m|)) == m + Zeros(32 - |m|)
  {
  }

  lemma XorSeparates(y: Register, a: Bits, b: Bits, z: Bits)
    requires |a| == |b| && |a| + |z| == 32 && Xor(y, a + z) == Xor(y, b + z)
    ensures a == b
  {
    forall i | 0 <= i < |a|
      ensures a[i] == b[i]
    {
      assert Xor(y, a + z)[i] == Xor(y, b + z)[i];
    }
  }

  lemma BlockChangesRegister(y: Register, a: Bits, b: Bits)
    requires |a| == |b| <= 32 && a != b
    ensures Divide(y, a) != Divide(y, b)
  {
    if Divide(y, a) == Divide(y, b) {
      var z := Zeros(32 - |a|);
      DivideBlock(y, a);
      DivideBlock(y, b);
      StepsInjective(Xor(y, a + z), Xor(y, b + z), |a|);
      XorSeparates(y, a, b, z);
    }
  }

  /** A burst of at most 32 bits always changes the register, whatever precedes and follows it. */
  lemma BurstChangesRegister(x: Register, pre: Bits, a: Bits, b: Bits, post: Bits)
    requires |a| == |b| <= 32 && a != b
    ensures Divide(x, pre + a + post) != Divide(x, pre + b + post)
  {
    var y := Divide(x, pre);
    DivideAppend(x, pre + a, post);
    DivideAppend(x, pre + b, post);
    DivideAppend(x, pre, a);
    DivideAppend(x, pre, b);
    BlockChangesRegister(y, a, b);
    if Divide(x, pre + a + post) == Divide(x, pre + b + post) {
      DivideInjective(Divide(y, a), Divide(y, b), post);
    }
  }
}
