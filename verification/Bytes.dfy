/** Byte strings and the 32-bit length fields of the on-disk and on-wire formats. */
module Bytes {
  newtype Byte = b: int | 0 <= b < 256
  type Bytes = seq<Byte>

  const U32_RANGE: nat := 0x1_0000_0000

  /** Bytes in a `uint32_t`. */
  const WORD: nat := 4

  lemma U32Small(n: nat)
    requires n < U32_RANGE
    ensures U32(n) == n
  {
  }

  /** Conversion of a size to `uint32_t`. */
  function U32(n: nat): (r: nat)
    ensures r < U32_RANGE && r <= n
  {
    n % U32_RANGE
  }

  /** The conversion wraps around, and is determined by that and by `U32Small`. */
  lemma U32Wraps(n: nat)
    ensures U32(n + U32_RANGE) == U32(n)
  {
  }

  // ---- The bits of a byte, for the code that shifts and masks ----

  function Bits8(b: Byte): bv8 { b as bv8 }

  function FromBits8(x: bv8): Byte { x as Byte }

  lemma FromBits8RoundTrip(x: bv8)
    ensures Bits8(FromBits8(x)) == x
  {
  }

  lemma Successor(x: bv8)
    requires x != 255
    ensures (x + 1) as nat == x as nat + 1
  {
  }

  /** Counting up from zero reaches every byte. */
  lemma {:induction false} EveryByte(b: Byte) returns (x: bv8)
    ensures FromBits8(x) == b
    decreases b as nat
  {
    x := 0;
    if b > 0 {
      var y := EveryByte(b - 1);
      Successor(y);
      x := y + 1;
    }
  }

  lemma Bits8Injective(a: Byte, b: Byte)
    requires Bits8(a) == Bits8(b)
    ensures a == b
  {
    var x := EveryByte(a);
    var y := EveryByte(b);
    FromBits8RoundTrip(x);
    FromBits8RoundTrip(y);
  }

  // ---- Length fields ----

  function Pow256(k: nat): (r: nat)
    ensures r > 0
  {
    if k == 0 then 1 else 256 * Pow256(k - 1)
  }

  /** The `k` low base-256 digits of `n`, least significant first. */
  function Digits(n: nat, k: nat): (s: Bytes)
    ensures |s| == k
    decreases k
  {
    if k == 0 then [] else [(n % 256) as Byte] + Digits(n / 256, k - 1)
  }

  function Undigits(s: Bytes): nat {
    if s == [] then 0 else s[0] as nat + 256 * Undigits(s[1..])
  }

  /** A `uint32_t` as it lies in memory. */
  function LittleEndian(n: nat): (s: Bytes)
    requires n < U32_RANGE
    ensures |s| == 4
  {
    Digits(n, WORD)
  }

  function FromLittleEndian(s: Bytes): (n: nat)
    requires |s| == 4
    ensures n < U32_RANGE
  {
    UndigitsRange(s);
    Undigits(s)
  }

  function Reversed(s: Bytes): (r: Bytes)
    ensures |r| == |s|
    ensures forall i :: 0 <= i < |s| ==> r[i] == s[|s| - 1 - i]
  {
    seq(|s|, i requires 0 <= i < |s| => s[|s| - 1 - i])
  }

  /** A length in network order: `htonl` reverses the bytes in memory. */
  function BigEndian(n: nat): (s: Bytes)
    requires n < U32_RANGE
    ensures |s| == 4
  {
    Reversed(LittleEndian(n))
  }

  function FromBigEndian(s: Bytes): (n: nat)
    requires |s| == 4
    ensures n < U32_RANGE
  {
    FromLittleEndian(Reversed(s))
  }

  lemma Pow256Four()
    ensures Pow256(4) == U32_RANGE
  {
    assert Pow256(2) == 65536;
    assert Pow256(4) == 65536 * 65536;
  }

  lemma {:induction false} UndigitsBelow(s: Bytes)
    ensures Undigits(s) < Pow256(|s|)
  {
    if s != [] {
      UndigitsBelow(s[1..]);
    }
  }

  lemma UndigitsRange(s: Bytes)
    requires |s| == 4
    ensures Undigits(s) < U32_RANGE
  {
    UndigitsBelow(s);
    Pow256Four();
  }

  lemma {:induction false} UndigitsDigits(n: nat, k: nat)
    requires n < Pow256(k)
    ensures Undigits(Digits(n, k)) == n
    decreases k
  {
    if k > 0 {
      UndigitsDigits(n / 256, k - 1);
    }
  }

  lemma LowDigit(d: nat, n: nat)
    requires d < 256
    ensures (d + 256 * n) % 256 == d && (d + 256 * n) / 256 == n
  {
  }

  lemma {:induction false} DigitsUndigits(s: Bytes)
    ensures Digits(Undigits(s), |s|) == s
  {
    if s != [] {
      DigitsUndigits(s[1..]);
      LowDigit(s[0] as nat, Undigits(s[1..]));
    }
  }

  /** The bytes of a length in memory. */
  lemma LittleEndianBytes(n: nat)
    requires n < U32_RANGE
    ensures var s := LittleEndian(n);
            && s[0] as nat == n % 256 && s[1] as nat == n / 256 % 256
            && s[2] as nat == n / 65536 % 256 && s[3] as nat == n / 16777216
  {
    var n1 := n / 256;
    var n2 := n1 / 256;
    var n3 := n2 / 256;
    assert Digits(n3, 1) == [(n3 % 256) as Byte];
    assert Digits(n2, 2) == [(n2 % 256) as Byte] + Digits(n3, 1);
    assert Digits(n1, 3) == [(n1 % 256) as Byte] + Digits(n2, 2);
    assert LittleEndian(n) == [(n % 256) as Byte] + Digits(n1, 3);
    assert n2 == n / 65536 && n3 == n / 16777216;
  }

  /** The bytes of a length on the wire, most significant first. */
  lemma BigEndianBytes(n: nat)
    requires n < U32_RANGE
    ensures var s := BigEndian(n);
            && s[0] as nat == n / 16777216 && s[1] as nat == n / 65536 % 256
            && s[2] as nat == n / 256 % 256 && s[3] as nat == n % 256
  {
    LittleEndianBytes(n);
  }

  lemma LittleEndianRoundTrip(n: nat)
    requires n < U32_RANGE
    ensures FromLittleEndian(LittleEndian(n)) == n
  {
    Pow256Four();
    UndigitsDigits(n, 4);
  }

  lemma BigEndianRoundTrip(n: nat)
    requires n < U32_RANGE
    ensures FromBigEndian(BigEndian(n)) == n
  {
    assert Reversed(Reversed(LittleEndian(n))) == LittleEndian(n);
    LittleEndianRoundTrip(n);
  }

  lemma BigEndianOfRead(s: Bytes)
    requires |s| == 4
    ensures BigEndian(FromBigEndian(s)) == s
  {
    DigitsUndigits(Reversed(s));
    assert Reversed(Reversed(s)) == s;
  }

  lemma LittleEndianOfRead(s: Bytes)
    requires |s| == 4
    ensures LittleEndian(FromLittleEndian(s)) == s
  {
    DigitsUndigits(s);
  }

  /** The parts of a tagged pair: one byte, then two strings, each behind its length field. */
  lemma TaggedPair(c: Byte, a: Bytes, k: Bytes, b: Bytes, v: Bytes)
    requires |a| == |b| == 4
    ensures var p := [c] + a + k + b + v;
            && |p| == 9 + |k| + |v| && p[0] == c && p[1..5] == a && p[5..5 + |k|] == k
            && p[5 + |k|..9 + |k|] == b && p[9 + |k|..] == p[9 + |k|..9 + |k| + |v|] == v
  {
  }

  /** The same parts at the front of a longer string. */
  lemma TaggedPairFront(c: Byte, a: Bytes, k: Bytes, b: Bytes, v: Bytes, d: Bytes)
    requires |a| == |b| == 4 && [c] + a + k + b + v <= d
    ensures |d| >= 9 + |k| + |v| && d[0] == c && d[1..5] == a && d[5..5 + |k|] == k
    ensures d[5 + |k|..9 + |k|] == b && d[9 + |k|..9 + |k| + |v|] == v
  {
    TaggedPair(c, a, k, b, v);
    FrontSlices([c] + a + k + b + v, d, |k|, |v|);
  }

  lemma FrontSlices(p: Bytes, d: Bytes, k: nat, v: nat)
    requires p <= d && |p| == 9 + k + v
    ensures d[0] == p[0] && d[1..5] == p[1..5] && d[5..5 + k] == p[5..5 + k]
    ensures d[5 + k..9 + k] == p[5 + k..9 + k] && d[9 + k..9 + k + v] == p[9 + k..9 + k + v]
  {
  }

  // ---- Concatenations of encoded items ----

  function Flatten<T, U>(encode: T -> seq<U>, xs: seq<T>): seq<U> {
    if xs == [] then [] else encode(xs[0]) + Flatten(encode, xs[1..])
  }

  lemma FlattenFront<T, U>(encode: T -> seq<U>, xs: seq<T>, rest: seq<U>)
    requires xs != []
    ensures Flatten(encode, xs) + rest == encode(xs[0]) + (Flatten(encode, xs[1..]) + rest)
  {
  }

  lemma {:induction false} FlattenAppend<T, U>(encode: T -> seq<U>, xs: seq<T>, ys: seq<T>)
    ensures Flatten(encode, xs + ys) == Flatten(encode, xs) + Flatten(encode, ys)
    decreases |xs|
  {
    if xs == [] {
      assert xs + ys == ys;
    } else {
      FlattenAppend(encode, xs[1..], ys);
      assert (xs + ys)[1..] == xs[1..] + ys;
    }
  }

  lemma FlattenSnoc<T, U>(encode: T -> seq<U>, xs: seq<T>, x: T)
    ensures Flatten(encode, xs + [x]) == Flatten(encode, xs) + encode(x)
  {
    FlattenAppend(encode, xs, [x]);
    assert Flatten(encode, [x]) == encode(x);
  }

  /** The items that end within the first `k` places. */
  function WholeItems<T, U>(encode: T -> seq<U>, xs: seq<T>, k: nat): (n: nat)
    ensures n <= |xs|
    decreases |xs|
  {
    if xs == [] || k < |encode(xs[0])| then 0
    else 1 + WholeItems(encode, xs[1..], k - |encode(xs[0])|)
  }

  /** What a cut after `k` places leaves: whole items, then a proper prefix of the next one. */
  lemma {:induction false} FlattenCut<T, U>(encode: T -> seq<U>, xs: seq<T>, k: nat) returns (tail: seq<U>)
    requires k <= |Flatten(encode, xs)|
    ensures var n := WholeItems(encode, xs, k);
            && Flatten(encode, xs)[..k] == Flatten(encode, xs[..n]) + tail
            && (if n == |xs| then tail == [] else tail < encode(xs[n]))
    decreases |xs|
  {
    if xs == [] {
      tail := [];
    } else if k < |encode(xs[0])| {
      tail := encode(xs[0])[..k];
      assert Flatten(encode, xs)[..k] == tail;
      assert xs[..0] == [];
    } else {
      tail := FlattenCut(encode, xs[1..], k - |encode(xs[0])|);
      var n := WholeItems(encode, xs, k);
      assert xs[..n][1..] == xs[1..][..n - 1];
      assert Flatten(encode, xs)[..k] == encode(xs[0]) + Flatten(encode, xs[1..])[..k - |encode(xs[0])|];
    }
  }

  /** Encodings of one length can be told apart item by item. */
  lemma {:induction false} FlattenInjective<T, U>(encode: T -> seq<U>, xs: seq<T>, ys: seq<T>)
    requires forall x, y :: |encode(x)| == |encode(y)| && (encode(x) == encode(y) ==> x == y)
    requires |xs| == |ys| && Flatten(encode, xs) == Flatten(encode, ys)
    ensures xs == ys
    decreases |xs|
  {
    if xs != [] {
      var x, y := encode(xs[0]), encode(ys[0]);
      assert Flatten(encode, xs)[..|x|] == x && Flatten(encode, ys)[..|y|] == y;
      assert Flatten(encode, xs)[|x|..] == Flatten(encode, xs[1..]);
      assert Flatten(encode, ys)[|y|..] == Flatten(encode, ys[1..]);
      FlattenInjective(encode, xs[1..], ys[1..]);
    }
  }
}
