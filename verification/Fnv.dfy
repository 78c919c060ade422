/** FNV-1a with 64-bit wrap-around (section 2, "FNV Basics", of draft-eastlake-fnv). */
module Fnv {
  import opened Bytes

  const OFFSET_BASIS: bv64 := 14695981039346656037

  /** `static_cast<size_t>(c)`: a `char` that is signed on the host sign-extends. */
  function Widen(signedChar: bool, c: Byte): bv64 {
    WidenBits(signedChar, Bits8(c))
  }

  function WidenBits(signedChar: bool, x: bv8): bv64 {
    if signedChar && x >= 0x80 then 0xFFFF_FFFF_FFFF_FF00 | (x as bv64) else x as bv64
  }

  function Xor(h: bv64, w: bv64): bv64 { h ^ w }

  function TimesPrime(h: bv64): bv64 { h * 1099511628211 }

  function Mix(h: bv64, w: bv64): bv64 { TimesPrime(Xor(h, w)) }

  function HashFrom(signedChar: bool, h: bv64, key: Bytes): bv64 {
    if key == [] then h
    else Mix(HashFrom(signedChar, h, key[..|key| - 1]), Widen(signedChar, key[|key| - 1]))
  }

  function Hash(signedChar: bool, key: Bytes): bv64 {
    HashFrom(signedChar, OFFSET_BASIS, key)
  }

  /** The loop of `hash`. */
  method Compute(signedChar: bool, key: Bytes) returns (hashVal: bv64)
    ensures hashVal == Hash(signedChar, key)
  {
    hashVal := OFFSET_BASIS;
    for i := 0 to |key|
      invariant hashVal == Hash(signedChar, key[..i])
    {
      assert key[..i + 1][..i] == key[..i];
      hashVal := Mix(hashVal, Widen(signedChar, key[i]));
    }
    assert key[..|key|] == key;
  }

  /** The prime is odd, so it has an inverse modulo 2^64. */
  function OverPrime(h: bv64): bv64 { h * 0xCE965057AFF6957B }

  lemma InverseOfPrime(x: bv64)
    ensures (x * 1099511628211) * 0xCE965057AFF6957B == x
  {
  }

  lemma OverPrimeOfProduct(x: bv64)
    ensures OverPrime(x * 1099511628211) == x
  {
    InverseOfPrime(x);
  }

  lemma OverTimesPrime(x: bv64)
    ensures OverPrime(TimesPrime(x)) == x
  {
    OverPrimeOfProduct(x);
  }

  lemma XorUndone(h: bv64, w: bv64)
    ensures Xor(Xor(h, w), w) == h
    ensures Xor(Xor(h, w), h) == w
  {
  }

  function Unmix(h: bv64, w: bv64): bv64 { Xor(OverPrime(h), w) }

  lemma UnmixMix(h: bv64, w: bv64)
    ensures Unmix(Mix(h, w), w) == h
    ensures Unmix(Mix(h, w), h) == w
  {
    OverTimesPrime(Xor(h, w));
    XorUndone(h, w);
  }

  lemma WidenInjective(signedChar: bool, a: Byte, b: Byte)
    requires Widen(signedChar, a) == Widen(signedChar, b)
    ensures a == b
  {
    WidenBitsInjective(signedChar, Bits8(a), Bits8(b));
    Bits8Injective(a, b);
  }

  lemma WidenBitsInjective(signedChar: bool, x: bv8, y: bv8)
    requires WidenBits(signedChar, x) == WidenBits(signedChar, y)
    ensures x == y
  {
  }

  /** Runs the hash of `key` backwards: hashing a fixed string permutes the 64-bit states. */
  function Rewind(signedChar: bool, h: bv64, key: Bytes): bv64
    decreases |key|
  {
    if key == [] then h
    else Rewind(signedChar, Unmix(h, Widen(signedChar, key[|key| - 1])), key[..|key| - 1])
  }

  lemma {:induction false} RewindHash(signedChar: bool, h: bv64, key: Bytes)
    ensures Rewind(signedChar, HashFrom(signedChar, h, key), key) == h
    decreases |key|
  {
    if key != [] {
      UnmixMix(HashFrom(signedChar, h, key[..|key| - 1]), Widen(signedChar, key[|key| - 1]));
      RewindHash(signedChar, h, key[..|key| - 1]);
    }
  }

  lemma {:induction false} HashAppend(signedChar: bool, h: bv64, a: Bytes, b: Bytes)
    ensures HashFrom(signedChar, h, a + b) == HashFrom(signedChar, HashFrom(signedChar, h, a), b)
    decreases |b|
  {
    if b == [] {
      assert a + b == a;
    } else {
      assert (a + b)[..|a + b| - 1] == a + b[..|b| - 1];
      HashAppend(signedChar, h, a, b[..|b| - 1]);
    }
  }

  /** A common suffix preserves both equality and inequality of hashes. */
  lemma CommonSuffix(signedChar: bool, s: Bytes, t: Bytes, suffix: Bytes)
    ensures Hash(signedChar, s + suffix) == Hash(signedChar, t + suffix) <==>
            Hash(signedChar, s) == Hash(signedChar, t)
  {
    HashAppend(signedChar, OFFSET_BASIS, s, suffix);
    HashAppend(signedChar, OFFSET_BASIS, t, suffix);
    RewindHash(signedChar, Hash(signedChar, s), suffix);
    RewindHash(signedChar, Hash(signedChar, t), suffix);
  }

  /** Two strings of one length that differ in exactly one byte never collide. */
  lemma OneByteNeverCollides(signedChar: bool, s: Bytes, t: Bytes, i: nat)
    requires |s| == |t| && i < |s| && s[i] != t[i]
    requires forall j :: 0 <= j < |s| && j != i ==> s[j] == t[j]
    ensures Hash(signedChar, s) != Hash(signedChar, t)
  {
    var pre, suffix := s[..i], s[i + 1..];
    assert s == pre + [s[i]] + suffix && t == pre + [t[i]] + suffix;
    CommonSuffix(signedChar, pre + [s[i]], pre + [t[i]], suffix);
    assert (pre + [s[i]])[..i] == pre && (pre + [t[i]])[..i] == pre;
    var h := Hash(signedChar, pre);
    var w, w' := Widen(signedChar, s[i]), Widen(signedChar, t[i]);
    UnmixMix(h, w);
    UnmixMix(h, w');
    if w == w' {
      WidenInjective(signedChar, s[i], t[i]);
    }
  }

  function Low(x: bv8): nat { (x as bv64) as nat }

  function High(x: bv8): nat { (0xFFFF_FFFF_FFFF_FF00 | (x as bv64)) as nat }

  lemma LowSuccessor(x: bv8)
    requires x != 255
    ensures Low(x + 1) == Low(x) + 1
  {
  }

  lemma HighSuccessor(x: bv8)
    requires x != 255
    ensures High(x + 1) == High(x) + 1
  {
  }

  /** Counting up from zero gives the number that each byte widens to. */
  lemma {:induction false} LowIs(x: bv8)
    ensures Low(x) == x as nat
    decreases x as nat
  {
    if x > 0 {
      Successor(x - 1);
      LowSuccessor(x - 1);
      LowIs(x - 1);
    }
  }

  lemma {:induction false} HighIs(x: bv8)
    ensures High(x) == x as nat + 0xFFFF_FFFF_FFFF_FF00
    decreases x as nat
  {
    if x > 0 {
      Successor(x - 1);
      HighSuccessor(x - 1);
      HighIs(x - 1);
    }
  }

  lemma WidenBitsIs(signedChar: bool, x: bv8)
    ensures WidenBits(signedChar, x) as nat == if signedChar && x >= 0x80 then High(x) else Low(x)
  {
  }

  /** A byte from 0x80 on is 2^64 - 256 more where `char` is signed: its value as a negative number. */
  lemma WidenIs(signedChar: bool, c: Byte)
    ensures Widen(signedChar, c) as nat ==
            if signedChar && c >= 128 then c as nat + 0xFFFF_FFFF_FFFF_FF00 else c as nat
  {
    var x := EveryByte(c);
    FromBits8RoundTrip(x);
    WidenBitsIs(signedChar, x);
    LowIs(x);
    HighIs(x);
    SignBit(x);
  }

  lemma SignBit(x: bv8)
    ensures x >= 0x80 <==> x as nat >= 128
  {
  }

  lemma HashSnoc(signedChar: bool, s: Bytes, c: Byte)
    ensures Hash(signedChar, s + [c]) == Mix(Hash(signedChar, s), Widen(signedChar, c))
  {
    assert (s + [c])[..|s|] == s;
  }

  lemma WidenLetters(signedChar: bool)
    ensures Widen(signedChar, 0x66) == 0x66 && Widen(signedChar, 0x6F) == 0x6F
  {
    assert Bits8(0x66) == 0x66 && Bits8(0x6F) == 0x6F;
  }

  /** The published values for the empty string, "a" and "foo". */
  lemma KnownAnswers(signedChar: bool)
    ensures Hash(signedChar, []) == 0xCBF29CE484222325
    ensures Hash(signedChar, [0x61]) == 0xAF63DC4C8601EC8C
    ensures Hash(signedChar, [0x66, 0x6F, 0x6F]) == 0xDCB27518FED9D577
  {
    var s: Bytes := [0x61];
    assert s[..0] == [];
    assert Bits8(0x61) == 0x61;
    WidenLetters(signedChar);
    HashSnoc(signedChar, [], 0x66);
    HashSnoc(signedChar, [0x66], 0x6F);
    HashSnoc(signedChar, [0x66, 0x6F], 0x6F);
    assert [] + [0x66] == [0x66] && [0x66] + [0x6F] == [0x66, 0x6F];
    assert [0x66, 0x6F] + [0x6F] == [0x66, 0x6F, 0x6F];
  }
}
