/** Go's bitwise operators on small unsigned values, defined bit by bit, and their arithmetic meaning. */
module Bits {
  import opened Bytes

  function And(a: nat, b: nat): nat {
    if a == 0 || b == 0 then 0 else 2 * And(a / 2, b / 2) + (if a % 2 == 1 && b % 2 == 1 then 1 else 0)
  }

  function Or(a: nat, b: nat): nat {
    if a == 0 then b
    else if b == 0 then a
    else 2 * Or(a / 2, b / 2) + (if a % 2 == 1 || b % 2 == 1 then 1 else 0)
  }

  /** b << k on a byte: bits pushed past bit 7 are lost. */
  function ShlByte(b: byte, k: nat): byte {
    LowBitsBound(Shl(b, k), 8);
    SmallPowers();
    LowBits(Shl(b, k), 8)
  }

  /** bits.Len8: the number of bits needed to write x. */
  function BitLen(x: nat): nat { if x == 0 then 0 else 1 + BitLen(x / 2) }

  /** The low k bits of x. */
  function LowBits(x: nat, k: nat): (r: nat)
    ensures r <= x
  {
    if k == 0 then 0 else 2 * LowBits(x / 2, k - 1) + x % 2
  }

  lemma {:induction false} BitLenBound(x: nat, k: nat)
    ensures BitLen(x) <= k <==> x < Pow2(k)
  {
    if x > 0 && k > 0 { BitLenBound(x / 2, k - 1); }
  }

  lemma {:induction false} LowBitsBound(x: nat, k: nat)
    ensures LowBits(x, k) < Pow2(k)
    ensures x < Pow2(k) ==> LowBits(x, k) == x
  {
    if k > 0 { LowBitsBound(x / 2, k - 1); }
  }

  lemma {:induction false} AndMask(a: nat, k: nat)
    ensures And(a, Pow2(k) - 1) == LowBits(a, k)
  {
    if k > 0 {
      if a > 0 {
        AndMask(a / 2, k - 1);
        assert (Pow2(k) - 1) / 2 == Pow2(k - 1) - 1 && (Pow2(k) - 1) % 2 == 1;
      } else {
        LowBitsBound(0, k);
      }
    }
  }

  lemma {:induction false} Split(x: nat, k: nat) returns (q: nat)
    ensures x == Shl(q, k) + LowBits(x, k)
  {
    if k == 0 {
      q := x;
    } else {
      q := Split(x / 2, k - 1);
    }
  }

  lemma SmallShl(q: nat)
    ensures Shl(q, 1) == 2 * q && Shl(q, 2) == 4 * q && Shl(q, 3) == 8 * q
    ensures Shl(q, 4) == 16 * q && Shl(q, 5) == 32 * q && Shl(q, 6) == 64 * q
  {
    assert Shl(q, 0) == q;
    assert Shl(q, 1) == 2 * Shl(q, 0);
    assert Shl(q, 2) == 2 * Shl(q, 1);
    assert Shl(q, 3) == 2 * Shl(q, 2);
    assert Shl(q, 4) == 2 * Shl(q, 3);
    assert Shl(q, 5) == 2 * Shl(q, 4);
    assert Shl(q, 6) == 2 * Shl(q, 5);
  }

  lemma LowBits3(x: nat)
    ensures LowBits(x, 3) == x % 8
  {
    hide LowBits, Shl, Pow2;
    var q := Split(x, 3);
    LowBitsBound(x, 3);
    SmallPowers();
    SmallShl(q);
  }

  lemma LowBits4(x: nat)
    ensures LowBits(x, 4) == x % 16
  {
    hide LowBits, Shl, Pow2;
    var q := Split(x, 4);
    LowBitsBound(x, 4);
    SmallPowers();
    SmallShl(q);
  }

  lemma LowBits5(x: nat)
    ensures LowBits(x, 5) == x % 32
  {
    hide LowBits, Shl, Pow2;
    var q := Split(x, 5);
    LowBitsBound(x, 5);
    SmallPowers();
    SmallShl(q);
  }

  lemma LowBits6(x: nat)
    ensures LowBits(x, 6) == x % 64
  {
    hide LowBits, Shl, Pow2;
    var q := Split(x, 6);
    LowBitsBound(x, 6);
    SmallPowers();
    SmallShl(q);
  }

  lemma AndMask6(x: nat)
    ensures And(x, 0x3F) == LowBits(x, 6)
  {
    SmallPowers();
    AndMask(x, 6);
  }

  /** x & 0x1F */
  lemma Mask5(x: nat)
    ensures And(x, 0x1F) == x % 32
  {
    SmallPowers();
    AndMask(x, 5);
    LowBits5(x);
  }

  /** Bits above the low n do not matter to them. */
  lemma {:induction false} LowBitsOfSum(h: nat, y: nat, k: nat, n: nat)
    requires n <= k
    ensures LowBits(Shl(h, k) + y, n) == LowBits(y, n)
  {
    if n > 0 {
      LowBitsOfSum(h, y / 2, k - 1, n - 1);
      assert (Shl(h, k) + y) / 2 == Shl(h, k - 1) + y / 2;
    }
  }

  /** Cutting above a shifted number joined with r low bits. */
  lemma {:induction false} LowBitsOfShl(x: nat, a: nat, r: nat, n: nat)
    requires a < Pow2(r)
    ensures LowBits(Shl(x, r) + a, r + n) == Shl(LowBits(x, n), r) + a
  {
    if r > 0 {
      LowBitsOfShl(x, a / 2, r - 1, n);
      assert (Shl(x, r) + a) / 2 == Shl(x, r - 1) + a / 2;
    }
  }

  lemma {:induction false} LowBitsNested(x: nat, m: nat, n: nat)
    requires m <= n
    ensures LowBits(LowBits(x, n), m) == LowBits(x, m)
  {
    if m > 0 { LowBitsNested(x / 2, m - 1, n - 1); }
  }

  lemma {:induction false} ShlBound(x: nat, n: nat, r: nat)
    requires x < Pow2(n)
    ensures Shl(x, r) + Pow2(r) <= Pow2(n + r)
  {
    if r > 0 { ShlBound(x, n, r - 1); }
  }

  lemma {:induction false} ShrBound(x: nat, n: nat, k: nat)
    requires x < Pow2(n + k)
    ensures Shr(x, k) < Pow2(n)
    decreases k
  {
    if k > 0 {
      ShrBound(x, n + 1, k - 1);
    }
  }

  lemma {:induction false} OrDisjoint(a: nat, c: nat, k: nat)
    requires a < Pow2(k)
    ensures Or(a, Shl(c, k)) == a + Shl(c, k)
  {
    if a > 0 && Shl(c, k) > 0 { OrDisjoint(a / 2, c, k - 1); }
  }

  lemma {:induction false} OrCommutes(a: nat, b: nat)
    ensures Or(a, b) == Or(b, a)
  {
    if a > 0 && b > 0 { OrCommutes(a / 2, b / 2); }
  }
}
