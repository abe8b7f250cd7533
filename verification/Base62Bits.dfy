/** The first p bits of a byte string as a number, and the byte operations that read its low six bits. */
module Base62Bits {
  import opened Bytes
  import opened Bits

  /** The bytes before byte i, and r bits of byte i, as a number. */
  function PrefixAt(src: Bytes, i: nat, r: nat): (v: nat)
    requires i < |src| && 1 <= r <= 8
  {
    Shl(Value(src[..i]), r) + Shr(src[i], 8 - r)
  }

  /** The first p bits of src, as a number. */
  function Prefix(src: Bytes, p: nat): (v: nat)
    requires p <= 8 * |src|
  {
    if p == 0 then 0 else PrefixAt(src, (p - 1) / 8, p - 8 * ((p - 1) / 8))
  }

  lemma PrefixOfAll(src: Bytes)
    ensures Prefix(src, 8 * |src|) == Value(src)
  {
    if src != [] {
      var i := |src| - 1;
      PrefixOfByte(src, i, 8);
      WholeByte(src, i);
      assert 8 * |src| == 8 * i + 8;
    }
  }

  lemma WholeByte(src: Bytes, i: nat)
    requires i < |src|
    ensures PrefixAt(src, i, 8) == Value(src[..i]) * 256 + src[i]
  {
    ShlBy8(Value(src[..i]), 0);
  }

  /** The first p bits end r bits into byte i. */
  lemma PrefixOfByte(src: Bytes, i: nat, r: nat)
    requires i < |src| && 1 <= r <= 8
    ensures Prefix(src, 8 * i + r) == PrefixAt(src, i, r)
  {
    ByteOfBit(i, r);
  }

  lemma ByteOfBit(i: nat, r: nat)
    requires 1 <= r <= 8
    ensures (8 * i + r - 1) / 8 == i
  {}

  /** Dropping the last bit halves the number. */
  lemma PrefixHalf(src: Bytes, p: nat)
    requires 0 < p <= 8 * |src|
    ensures Prefix(src, p) / 2 == Prefix(src, p - 1)
  {
    var i := (p - 1) / 8;
    var r := p - 8 * i;
    PrefixOfByte(src, i, r);
    if r > 1 {
      PrefixOfByte(src, i, r - 1);
    } else {
      TopByte(src[i]);
      var a := Value(src[..i]);
      assert Shl(a, 1) == 2 * a;
      if i > 0 {
        PrefixOfByte(src, i - 1, 8);
        WholeByte(src, i - 1);
        assert src[..i][..i - 1] == src[..i - 1];
      }
    }
  }

  lemma TopByte(x: byte)
    ensures Shr(x, 8) == 0 && Shr(x, 8) == Shr(x, 7) / 2
  {
    SmallPowers();
    ShrBound(x, 0, 8);
  }

  /** Dropping five bits. */
  lemma PrefixShift5(src: Bytes, p: nat)
    requires 5 <= p <= 8 * |src|
    ensures Prefix(src, p) / 32 == Prefix(src, p - 5)
  {
    PrefixHalf(src, p);
    PrefixHalf(src, p - 1);
    PrefixHalf(src, p - 2);
    PrefixHalf(src, p - 3);
    PrefixHalf(src, p - 4);
    FiveHalves(Prefix(src, p));
  }

  /** Dropping six bits. */
  lemma PrefixShift6(src: Bytes, p: nat)
    requires 6 <= p <= 8 * |src|
    ensures Prefix(src, p) / 64 == Prefix(src, p - 6)
  {
    PrefixShift5(src, p);
    PrefixHalf(src, p - 5);
    FiveHalves(Prefix(src, p));
  }

  lemma FiveHalves(x: nat)
    ensures x / 32 == x / 2 / 2 / 2 / 2 / 2
    ensures x / 64 == x / 32 / 2
  {}

  lemma {:induction false} PrefixBound(src: Bytes, p: nat)
    requires p <= 8 * |src|
    ensures Prefix(src, p) < Pow2(p)
  {
    if p > 0 {
      PrefixHalf(src, p);
      PrefixBound(src, p - 1);
    }
  }

  lemma AndOfEven(b: nat)
    ensures And(b, 30) == if b == 0 then 0 else 2 * And(b / 2, 15)
  {}

  /** b & 0x1E == 0x1E picks out 30, 31, 62 and 63 among six-bit windows. */
  lemma CompactMask(b: nat)
    requires b < 64
    ensures And(b, 0x1E) == 0x1E <==> b == 30 || b == 31 || b == 62 || b == 63
  {
    hide And, LowBits, Pow2;
    SmallPowers();
    AndMask(b / 2, 4);
    LowBits4(b / 2);
    AndOfEven(b);
  }

  /** The top r bits of a byte. */
  lemma LowPart(lo: byte, r: nat)
    requires 1 <= r <= 8
    ensures Shr(lo, 8 - r) < Pow2(r)
  {
    SmallPowers();
    ShrBound(lo, r, 8 - r);
  }

  /** A window with its low r bits at the top of lo: the backward reader's way of joining the parts. */
  lemma JoinBackward(hi: byte, lo: byte, r: nat)
    requires 1 <= r <= 5
    ensures And(Or(Shr(lo, 8 - r), ShlByte(hi, r)), 0x3F) == LowBits(Shl(hi, r) + Shr(lo, 8 - r), 6)
  {
    hide And, Or, Shl, Shr, LowBits, Pow2;
    var a, c := Shr(lo, 8 - r), LowBits(hi, 8 - r);
    LowPart(lo, r);
    assert ShlByte(hi, r) == Shl(c, r) by { LowBitsOfShl(hi, 0, r, 8 - r); }
    OrDisjoint(a, c, r);
    LowBitsOfShl(hi, a, r, 6 - r);
    LowBitsOfShl(c, a, r, 6 - r);
    LowBitsNested(hi, 6 - r, 8 - r);
    AndMask6(a + Shl(c, r));
  }

  /** The forward reader's way: the low 6 - r bits of hi, moved up, with the top r bits of lo. */
  lemma JoinForward(hi: byte, lo: byte, r: nat)
    requires 1 <= r <= 5
    ensures Or(ShlByte(LowBits(hi, 6 - r), r), Shr(lo, 8 - r)) == LowBits(Shl(hi, r) + Shr(lo, 8 - r), 6)
  {
    hide And, Or, Shl, Shr, LowBits, Pow2, ShlByte;
    var a, c := Shr(lo, 8 - r), LowBits(hi, 6 - r);
    LowPart(lo, r);
    ShortShift(hi, r);
    OrDisjoint(a, c, r);
    OrCommutes(a, Shl(c, r));
    LowBitsOfShl(hi, a, r, 6 - r);
  }

  lemma ShortShift(hi: byte, r: nat)
    requires 1 <= r <= 5
    ensures ShlByte(LowBits(hi, 6 - r), r) == Shl(LowBits(hi, 6 - r), r)
  {
    var c := LowBits(hi, 6 - r);
    LowBitsBound(hi, 6 - r);
    ShlBound(c, 6 - r, r);
    Pow2Monotone(6, 8);
    LowBitsBound(Shl(c, r), 8);
  }

  lemma PrefixParts(src: Bytes, i: nat, r: nat)
    requires i < |src|
    ensures if i == 0 then Value(src[..i]) == 0 else Value(src[..i]) == Shl(Value(src[..i - 1]), 8) + src[i - 1]
  {
    if i > 0 {
      assert src[..i][..i - 1] == src[..i - 1];
      ShlBy8(Value(src[..i - 1]), 0);
    }
  }

  /** The low six bits of the first 8i + r bits lie in byte i, and in byte i - 1 when r < 6. */
  lemma PrefixWindow(src: Bytes, i: nat, r: nat)
    requires i < |src| && 1 <= r <= 8
    ensures LowBits(Prefix(src, 8 * i + r), 6) ==
      if r >= 6 || i == 0 then LowBits(Shr(src[i], 8 - r), 6)
      else LowBits(Shl(src[i - 1], r) + Shr(src[i], 8 - r), 6)
  {
    hide LowBits, Shl, Shr, Value, Prefix;
    PrefixOfByte(src, i, r);
    var x := Shr(src[i], 8 - r);
    PrefixParts(src, i, r);
    if i == 0 {
      ShlZero(r);
    } else if r >= 6 {
      LowBitsOfSum(Value(src[..i]), x, r, 6);
    } else {
      var h, y := Value(src[..i - 1]), src[i - 1];
      ShlAdd(Shl(h, 8), y, r);
      ShlShl(h, 8, r);
      LowBitsOfSum(h, Shl(y, r) + x, 8 + r, 6);
    }
  }

  lemma {:induction false} ShlZero(r: nat)
    ensures Shl(0, r) == 0
  {
    if r > 0 { ShlZero(r - 1); }
  }
}
