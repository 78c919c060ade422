/**
 The reflected CRC-32 of the write-ahead log (polynomial 0xEDB88320, section 8 of RFC 1952).

 The register is a 32-bit word, as in the code; its algebra is proved on the list of its bits, which is
 also the order in which the division consumes the message.
 */
module Crc32 {
  import opened Bytes
  import opened WordBits
  import opened Division

  // ---- The checksum as coded ----

  const INIT: bv32 := 0xFFFFFFFF

  function Invert(x: bv32): bv32 { !x }

  /** A data byte, widened to the register. */
  function Word8(b: Byte): bv32 { Bits8(b) as bv32 }

  function BitStep(crc: bv32): bv32 {
    if Odd(crc) then XorWord(Half(crc), POLYNOMIAL) else Half(crc)
  }

  function BitSteps(crc: bv32, n: nat): bv32
    decreases n
  {
    if n == 0 then crc else BitSteps(BitStep(crc), n - 1)
  }

  function Round(crc: bv32, b: Byte): bv32 {
    BitSteps(XorWord(crc, Word8(b)), 8)
  }

  /** The register after the bytes of `s`, started at `crc`. */
  function Update(crc: bv32, s: Bytes): bv32 {
    if s == [] then crc else Round(Update(crc, s[..|s| - 1]), s[|s| - 1])
  }

  function Checksum(s: Bytes): bv32 {
    Invert(Update(INIT, s))
  }

  lemma BitStepAsCoded(x: bv32)
    ensures BitStep(x) == (x >> 1) ^ (0xEDB88320 & (-(x & 1)))
  {
    if Odd(x) {
      assert 0xEDB88320 & (-(x & 1)) == 0xEDB88320;
    } else {
      assert x & 1 == 0;
      assert (x >> 1) ^ 0 == x >> 1;
    }
  }

  /** The nested loops of `crc32`. */
  method Compute(data: Bytes) returns (crc: bv32)
    ensures crc == Checksum(data)
  {
    crc := INIT;
    for i := 0 to |data|
      invariant crc == Update(INIT, data[..i])
    {
      UpdateSnoc(INIT, data[..i], data[i]);
      assert data[..i + 1] == data[..i] + [data[i]];
      crc := ShiftLoop(XorWord(crc, Word8(data[i])));
    }
    assert data[..|data|] == data;
    crc := Invert(crc);
  }

  method ShiftLoop(start: bv32) returns (crc: bv32)
    ensures crc == BitSteps(start, 8)
  {
    crc := start;
    for j := 0 to 8
      invariant BitSteps(crc, 8 - j) == BitSteps(start, 8)
    {
      BitStepAsCoded(crc);
      crc := (crc >> 1) ^ (0xEDB88320 & (-(crc & 1)));
    }
  }

  lemma UpdateSnoc(crc: bv32, s: Bytes, b: Byte)
    ensures Update(crc, s + [b]) == Round(Update(crc, s), b)
  {
    assert (s + [b])[..|s|] == s;
  }

  /** The published values for the empty string and for "a". */
  lemma KnownAnswers()
    ensures Checksum([]) == 0
    ensures Checksum([0x61]) == 0xE8B7BE43
  {
    var s: Bytes := [0x61];
    assert s[..0] == [];
    assert Update(INIT, s) == Round(0xFFFFFFFF, 0x61);
    assert Bits8(0x61) == 0x61;
    assert BitStep(0xFFFFFF9E) == 0x7FFFFFCF;
  }

  // ---- The coded register follows the division ----

  function ByteBits(b: Byte): (r: Bits)
    ensures |r| == 8
  {
    LowBits(Word8(b), 8)
  }

  /** A message in the order its bits enter the register. */
  function Stream(s: Bytes): Bits {
    Flatten(ByteBits, s)
  }

  lemma StepAgrees(x: bv32)
    ensures RegisterOf(BitStep(x)) == Step(RegisterOf(x))
  {
    HalfAgrees(x);
    LowBitsXor(Half(x), POLYNOMIAL, 32);
    assert RegisterOf(x)[0] == Odd(x);
  }

  lemma {:induction false} StepsAgree(x: bv32, n: nat)
    ensures RegisterOf(BitSteps(x, n)) == Steps(RegisterOf(x), n)
    decreases n
  {
    if n > 0 {
      StepAgrees(x);
      StepsAgree(BitStep(x), n - 1);
    }
  }

  lemma ByteShiftedOut(b: Byte)
    ensures Word8(b) >> 8 == 0
  {
    assert (Bits8(b) as bv32) >> 8 == 0;
  }

  lemma ByteAgrees(b: Byte)
    ensures RegisterOf(Word8(b)) == ByteBits(b) + Zeros(24)
  {
    LowBitsSplit(Word8(b), 8, 24);
    Halves8(Word8(b));
    ByteShiftedOut(b);
    LowBitsZero(24);
  }

  lemma RoundAgrees(crc: bv32, b: Byte)
    ensures RegisterOf(Round(crc, b)) == Divide(RegisterOf(crc), ByteBits(b))
  {
    StepsAgree(XorWord(crc, Word8(b)), 8);
    LowBitsXor(crc, Word8(b), 32);
    ByteAgrees(b);
    DivideBlock(RegisterOf(crc), ByteBits(b));
  }

  /** The coded checksum is the bitwise division of the whole message. */
  lemma {:induction false} UpdateDivides(crc: bv32, s: Bytes)
    ensures RegisterOf(Update(crc, s)) == Divide(RegisterOf(crc), Stream(s))
    decreases |s|
  {
    if s != [] {
      var init, last := s[..|s| - 1], s[|s| - 1];
      UpdateDivides(crc, init);
      UpdateThen(crc, init, last);
      assert s == init + [last];
    }
  }

  lemma UpdateThen(crc: bv32, s: Bytes, b: Byte)
    requires RegisterOf(Update(crc, s)) == Divide(RegisterOf(crc), Stream(s))
    ensures RegisterOf(Update(crc, s + [b])) == Divide(RegisterOf(crc), Stream(s + [b]))
  {
    UpdateSnoc(crc, s, b);
    RoundAgrees(Update(crc, s), b);
    DivideAppend(RegisterOf(crc), Stream(s), ByteBits(b));
    FlattenSnoc(ByteBits, s, b);
  }

  lemma StreamAppend(a: Bytes, b: Bytes)
    ensures Stream(a + b) == Stream(a) + Stream(b)
  {
    FlattenAppend(ByteBits, a, b);
  }

  lemma {:induction false} StreamLength(s: Bytes)
    ensures |Stream(s)| == 8 * |s|
  {
    if s != [] {
      StreamLength(s[1..]);
    }
  }

  // ---- The stored field ----

  /** The checksum field as stored: four bytes, least significant first. */
  function FieldOf(crc: bv32): (s: Bytes)
    ensures |s| == 4
  {
    [LowByte(crc), LowByte(crc >> 8), LowByte(crc >> 16), LowByte(crc >> 24)]
  }

  function LowByte(x: bv32): Byte { FromBits8((x & 0xFF) as bv8) }

  function WordOf(s: Bytes): bv32
    requires |s| == 4
  {
    Word(s[0], s[1], s[2], s[3])
  }

  function Word(b0: Byte, b1: Byte, b2: Byte, b3: Byte): bv32 {
    XorWord(Word8(b0), Raise(XorWord(Word8(b1), Raise(XorWord(Word8(b2), Raise(Word8(b3)))))))
  }

  function Raise(x: bv32): bv32 { x << 8 }

  lemma FieldOfZero()
    ensures FieldOf(0) == [0, 0, 0, 0]
  {
    assert FromBits8(0) == 0;
  }

  lemma FieldRoundTrip(crc: bv32)
    ensures WordOf(FieldOf(crc)) == crc
  {
    LowByteBits(crc);
    LowByteBits(crc >> 8);
    LowByteBits(crc >> 16);
    LowByteBits(crc >> 24);
    Reassemble(crc);
  }

  lemma LowByteBits(x: bv32)
    ensures Word8(LowByte(x)) == x & 0xFF
  {
    FromBits8RoundTrip((x & 0xFF) as bv8);
    assert ((x & 0xFF) as bv8) as bv32 == x & 0xFF;
  }

  lemma Reassemble(x: bv32)
    ensures XorWord(x & 0xFF, Raise(XorWord((x >> 8) & 0xFF,
              Raise(XorWord((x >> 16) & 0xFF, Raise((x >> 24) & 0xFF)))))) == x
  {
  }

  /** Replay keeps an entry exactly when the stored word equals the recomputed one. */
  predicate Accepts(payload: Bytes, field: Bytes)
    requires |field| == 4
  {
    Checksum(payload) == WordOf(field)
  }

  lemma NibbleBits(y: bv32)
    requires y & 0xF == 0
    ensures !Odd(y) && !Odd(Half(y)) && !Odd(Half(Half(y))) && !Odd(Half(Half(Half(y))))
  {
  }

  lemma ClearLowNibble(y: bv32)
    requires y & 0xF == 0
    ensures LowBits(y, 4) == Zeros(4)
  {
    NibbleBits(y);
    var y1 := Half(y);
    var y2 := Half(y1);
    var y3 := Half(y2);
    assert LowBits(y3, 1) == [false];
    assert LowBits(y2, 2) == [false, false];
    assert LowBits(y1, 3) == [false, false, false];
    assert LowBits(y, 4) == [false, false, false, false];
  }

  lemma ClearNibbles(y: bv32)
    requires y & 0xF == 0 && (y >> 4) & 0xF == 0
    ensures LowBits(y, 8) == Zeros(8)
  {
    LowBitsSplit(y, 4, 4);
    Halves4(y);
    ClearLowNibble(y);
    ClearLowNibble(y >> 4);
  }

  lemma RaisedNibbles(x: bv32)
    ensures Raise(x) & 0xF == 0 && (Raise(x) >> 4) & 0xF == 0
  {
  }

  lemma RaisedLowByte(x: bv32)
    ensures LowBits(Raise(x), 8) == Zeros(8)
  {
    RaisedNibbles(x);
    ClearNibbles(Raise(x));
  }

  lemma WidenSmall(x: bv8)
    ensures (x as bv32) & 0xFFFF_FF00 == 0
  {
  }

  lemma Word8Small(b: Byte)
    ensures Word8(b) & 0xFFFF_FF00 == 0
  {
    WidenSmall(Bits8(b));
  }

  lemma Unraise(y: bv32, x: bv32)
    requires y & 0xFFFF_FF00 == 0 && x & 0xFF00_0000 == 0
    ensures XorWord(y, Raise(x)) >> 8 == x
  {
  }

  lemma WordPeel(y: bv32, x: bv32, n: nat)
    requires y & 0xFFFF_FF00 == 0 && x & 0xFF00_0000 == 0
    ensures LowBits(XorWord(y, Raise(x)), 8 + n) == LowBits(y, 8) + LowBits(x, n)
  {
    var w := XorWord(y, Raise(x));
    LowBitsSplit(w, 8, n);
    Halves8(w);
    Unraise(y, x);
    LowBitsXor(y, Raise(x), 8);
    RaisedLowByte(x);
    assert Xor(LowBits(y, 8), Zeros(8)) == LowBits(y, 8);
  }

  lemma HighByteClear(y1: bv32, y2: bv32, y3: bv32)
    requires y1 & 0xFFFF_FF00 == 0 && y2 & 0xFFFF_FF00 == 0 && y3 & 0xFFFF_FF00 == 0
    ensures y3 & 0xFF00_0000 == 0
    ensures XorWord(y2, Raise(y3)) & 0xFF00_0000 == 0
    ensures XorWord(y1, Raise(XorWord(y2, Raise(y3)))) & 0xFF00_0000 == 0
  {
  }

  lemma WordSpells(b0: Byte, b1: Byte, b2: Byte, b3: Byte)
    ensures RegisterOf(Word(b0, b1, b2, b3)) == ByteBits(b0) + (ByteBits(b1) + (ByteBits(b2) + ByteBits(b3)))
  {
    Word8Small(b0);
    Word8Small(b1);
    Word8Small(b2);
    Word8Small(b3);
    HighByteClear(Word8(b1), Word8(b2), Word8(b3));
    var w3 := Word8(b3);
    var w2 := XorWord(Word8(b2), Raise(w3));
    var w1 := XorWord(Word8(b1), Raise(w2));
    WordPeel(Word8(b0), w1, 24);
    WordPeel(Word8(b1), w2, 16);
    WordPeel(Word8(b2), w3, 8);
  }

  lemma Flatten4<T, U>(encode: T -> seq<U>, q: seq<T>)
    requires |q| == 4
    ensures Flatten(encode, q) == encode(q[0]) + encode(q[1]) + encode(q[2]) + encode(q[3])
  {
    assert q == [q[0]] + [q[1]] + [q[2]] + [q[3]];
    FlattenSnoc(encode, [q[0]] + [q[1]] + [q[2]], q[3]);
    FlattenSnoc(encode, [q[0]] + [q[1]], q[2]);
    FlattenSnoc(encode, [q[0]], q[1]);
  }

  lemma Stream4(q: Bytes)
    requires |q| == 4
    ensures Stream(q) == ByteBits(q[0]) + ByteBits(q[1]) + ByteBits(q[2]) + ByteBits(q[3])
  {
    Flatten4(ByteBits, q);
  }

  lemma Regroup(a: Bits, b: Bits, c: Bits, d: Bits)
    ensures a + (b + (c + d)) == a + b + c + d
  {
  }

  /** The stored word, read bit by bit, is the message its four bytes spell. */
  lemma WordStream(q: Bytes)
    requires |q| == 4
    ensures RegisterOf(WordOf(q)) == Stream(q)
  {
    WordSpells(q[0], q[1], q[2], q[3]);
    Stream4(q);
    Regroup(ByteBits(q[0]), ByteBits(q[1]), ByteBits(q[2]), ByteBits(q[3]));
  }

  // ---- What the field detects ----

  ghost const RESIDUE: Register := Steps(RegisterOf(0xFFFFFFFF), 32)

  lemma XorCancels(u: bv32, w: bv32)
    ensures !u == w ==> u ^ w == 0xFFFFFFFF
    ensures u ^ w == 0xFFFFFFFF ==> !u == w
  {
    assert u ^ (u ^ w) == w;
    assert u ^ 0xFFFFFFFF == !u;
  }

  lemma Complement(u: bv32, w: bv32)
    ensures Invert(u) == w <==> XorWord(u, w) == 0xFFFFFFFF
  {
    XorCancels(u, w);
  }

  lemma DivideField(u: bv32, q: Bytes)
    requires |q| == 4
    ensures Divide(RegisterOf(u), Stream(q)) == Steps(RegisterOf(XorWord(u, WordOf(q))), 32)
  {
    StreamLength(q);
    DivideBlock(RegisterOf(u), Stream(q));
    WordStream(q);
    LowBitsXor(u, WordOf(q), 32);
    assert Stream(q) + Zeros(0) == Stream(q);
  }

  lemma ResidueOnly(x: bv32)
    ensures Steps(RegisterOf(x), 32) == RESIDUE <==> x == 0xFFFFFFFF
  {
    if Steps(RegisterOf(x), 32) == RESIDUE {
      StepsInjective(RegisterOf(x), RegisterOf(0xFFFFFFFF), 32);
      RegisterInjective(x, 0xFFFFFFFF);
    }
  }

  /** Payload and field are accepted exactly when together they leave one fixed residue. */
  lemma AcceptsResidue(p: Bytes, q: Bytes)
    requires |q| == 4
    ensures Accepts(p, q) <==> Divide(RegisterOf(INIT), Stream(p + q)) == RESIDUE
  {
    var u := Update(INIT, p);
    UpdateDivides(INIT, p);
    StreamAppend(p, q);
    DivideAppend(RegisterOf(INIT), Stream(p), Stream(q));
    DivideField(u, q);
    ResidueOnly(XorWord(u, WordOf(q)));
    Complement(u, WordOf(q));
  }

  /** Any burst of at most 32 bits across payload and field turns an accepted entry into a rejected one. */
  lemma BurstRejected(p: Bytes, q: Bytes, p': Bytes, q': Bytes, pre: Bits, a: Bits, b: Bits, post: Bits)
    requires |q| == |q'| == 4
    requires Stream(p + q) == pre + a + post && Stream(p' + q') == pre + b + post
    requires |a| == |b| <= 32 && a != b
    requires Accepts(p, q)
    ensures !Accepts(p', q')
  {
    AcceptsResidue(p, q);
    AcceptsResidue(p', q');
    BurstChangesRegister(RegisterOf(INIT), pre, a, b, post);
  }

  lemma WidenInjective(x: bv8, y: bv8)
    requires x as bv32 == y as bv32
    ensures x == y
  {
  }

  lemma ByteBitsInjective(a: Byte, b: Byte)
    requires ByteBits(a) == ByteBits(b)
    ensures a == b
  {
    var x, y := Word8(a), Word8(b);
    Halves8(XorWord(x, y));
    Word8Small(a);
    Word8Small(b);
    assert XorWord(x, y) >> 8 == 0;
    LowBitsInjective(x, y, 8);
    WidenInjective(Bits8(a), Bits8(b));
    Bits8Injective(a, b);
  }

  lemma StreamInjective(a: Bytes, b: Bytes)
    requires |a| == |b| && Stream(a) == Stream(b)
    ensures a == b
  {
    forall x, y
      ensures |ByteBits(x)| == |ByteBits(y)| && (ByteBits(x) == ByteBits(y) ==> x == y)
    {
      if ByteBits(x) == ByteBits(y) {
        ByteBitsInjective(x, y);
      }
    }
    FlattenInjective(ByteBits, a, b);
  }

  lemma StreamThree(pre: Bytes, a: Bytes, post: Bytes)
    ensures Stream(pre + a + post) == Stream(pre) + Stream(a) + Stream(post)
  {
    StreamAppend(pre + a, post);
    StreamAppend(pre, a);
  }

  /** The same for damage confined to four consecutive bytes of payload and field. */
  lemma FourByteDamageRejected(p: Bytes, q: Bytes, p': Bytes, q': Bytes, pre: Bytes, a: Bytes, b: Bytes, post: Bytes)
    requires |q| == |q'| == 4
    requires p + q == pre + a + post && p' + q' == pre + b + post
    requires |a| == |b| <= 4 && a != b
    requires Accepts(p, q)
    ensures !Accepts(p', q')
  {
    StreamThree(pre, a, post);
    StreamThree(pre, b, post);
    StreamLength(a);
    StreamLength(b);
    if Stream(a) == Stream(b) {
      StreamInjective(a, b);
    }
    BurstRejected(p, q, p', q', Stream(pre), Stream(a), Stream(b), Stream(post));
  }

  /** Two buffers that differ only within four consecutive bytes never share a checksum. */
  lemma ChecksumSeparates(pre: Bytes, a: Bytes, b: Bytes, post: Bytes)
    requires |a| == |b| <= 4 && a != b
    ensures Checksum(pre + a + post) != Checksum(pre + b + post)
  {
    var q := FieldOf(Checksum(pre + a + post));
    FieldRoundTrip(Checksum(pre + a + post));
    Extend(pre, a, post, q);
    Extend(pre, b, post, q);
    FourByteDamageRejected(pre + a + post, q, pre + b + post, q, pre, a, b, post + q);
  }

  lemma Extend(pre: Bytes, a: Bytes, post: Bytes, q: Bytes)
    ensures pre + a + post + q == pre + a + (post + q)
  {
  }
}
