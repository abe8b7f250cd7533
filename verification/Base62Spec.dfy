/**
 The variable-width base-62 code as a relation between numbers and digit strings.

 A digit stands for six bits, except 30 and 31, which stand for five: the windows x1111x would
 need the values 62 and 63, so such a window is cut to its low five bits. The lowest digit comes
 first, and the last digit takes whatever bits remain.
 */
module Base62Spec {
  import opened Bytes
  import opened Bits

  /** The six-bit windows that match x1111x. */
  predicate Compact(b: nat) { b == 30 || b == 31 || b == 62 || b == 63 }

  function Width(d: nat): (w: nat) { if d == 30 || d == 31 then 5 else 6 }

  /** The number with lowest digit d and the rest above it. */
  function Join(d: nat, rest: nat): (v: nat) { d + (if Width(d) == 5 then 32 * rest else 64 * rest) }

  /** The digit a six-bit window b gives. */
  function DigitOf(b: nat): (d: nat) { if Compact(b) then b % 32 else b }

  /** The bits it takes when p are left. */
  function SizeOf(b: nat, p: nat): (k: nat) { if Compact(b) && (p > 6 || b > 31) then 5 else 6 }

  /** The bits left after one step. */
  function PosAfter(b: nat, p: nat): (q: nat) { if p > SizeOf(b, p) then p - SizeOf(b, p) else 0 }

  /** The digits of the p-bit number v. */
  function Digits(v: nat, p: nat): (ds: seq<nat>)
    decreases p
  {
    if p == 0 then []
    else
      var b := v % 64;
      [DigitOf(b)] + Digits(if SizeOf(b, p) == 5 then v / 32 else v / 64, PosAfter(b, p))
  }

  /** The weighted sum a digit string stands for. */
  function Number(ds: seq<nat>): (v: nat) {
    if ds == [] then 0 else Join(ds[0], Number(ds[1..]))
  }

  /** The bits of all digits but the last. */
  function BodyWidth(ds: seq<nat>): (w: nat) {
    if |ds| <= 1 then 0 else Width(ds[0]) + BodyWidth(ds[1..])
  }

  /** The bits a decoder takes from a digit string: the last digit counts its significant bits only. */
  function TotalWidth(ds: seq<nat>): (w: nat) {
    if ds == [] then 0 else BodyWidth(ds) + BitLen(ds[|ds| - 1])
  }

  predicate AllDigits(ds: seq<nat>) { forall i :: 0 <= i < |ds| ==> ds[i] < 62 }

  function Unpack(ds: seq<nat>): (s: Bytes) {
    BigEndian(Number(ds), (TotalWidth(ds) + 7) / 8)
  }

  // ---- Round trip ---------------------------------------------------------

  lemma Shrink(v: nat, p: nat)
    requires v < Pow2(p)
    ensures p >= 5 ==> v / 32 < Pow2(p - 5)
    ensures p >= 6 ==> v / 64 < Pow2(p - 6)
    ensures p <= 5 ==> v < 32
    ensures p <= 6 ==> v < 64
  {
    if p >= 5 { Pow2Plus(p - 5); }
    if p >= 6 { Pow2Plus(p - 6); }
    SmallPowers();
    if p <= 5 { Pow2Monotone(p, 5); }
  }

  /**
   One step of the encoder: either v is the last digit, or its lowest digit d comes off and the
   remaining p' bits hold a number that fits them. Cutting a window to five bits with six bits left
   leaves the single bit 1.
   */
  lemma Step(v: nat, p: nat) returns (d: nat, rest: nat, p': nat)
    requires v < Pow2(p) && p > 0
    ensures d < 62 && d == DigitOf(v % 64) && p' == PosAfter(v % 64, p)
    ensures p' == 0 ==> p <= 6 && Digits(v, p) == [v] && d == v
    ensures p' > 0 ==>
      && p >= 6 && p' == p - Width(d) && rest < Pow2(p') && v == Join(d, rest)
      && Digits(v, p) == [d] + Digits(rest, p')
      && (p == 6 ==> rest == 1)
  {
    hide Digits, Pow2;
    var b := v % 64;
    Shrink(v, p);
    d, rest, p' := DigitOf(b), if SizeOf(b, p) == 5 then v / 32 else v / 64, PosAfter(b, p);
    Unfold(v, rest, p);
    NoDigits(rest);
  }

  lemma {:induction false} DigitsAreDigits(v: nat, p: nat)
    requires v < Pow2(p)
    ensures AllDigits(Digits(v, p))
    ensures p > 0 ==> Digits(v, p) != []
    decreases p
  {
    if p > 0 {
      var d, rest, p' := Step(v, p);
      if p' > 0 { DigitsAreDigits(rest, p'); }
    }
  }

  lemma {:induction false} NumberOfDigits(v: nat, p: nat)
    requires v < Pow2(p)
    ensures Number(Digits(v, p)) == v
    decreases p
  {
    if p > 0 {
      var d, rest, p' := Step(v, p);
      if p' > 0 {
        NumberOfDigits(rest, p');
        assert Digits(v, p)[1..] == Digits(rest, p');
      } else {
        assert Number([v][1..]) == 0;
      }
    }
  }

  /** Encoding leaves one to six bits to the last digit, so the decoder sees p - 6 to p bits. */
  lemma {:induction false} WidthOfDigits(v: nat, p: nat)
    requires v < Pow2(p) && p > 0
    ensures 1 <= p - BodyWidth(Digits(v, p)) <= 6
    ensures p - 6 <= TotalWidth(Digits(v, p)) <= p
    decreases p
  {
    var d, rest, p' := Step(v, p);
    if p' > 0 {
      DigitsAreDigits(rest, p');
      WidthOfDigits(rest, p');
      assert Digits(v, p)[1..] == Digits(rest, p');
    } else {
      BitLenBound(v, p);
    }
  }

  /** Unpacking the digits of a byte string gives the byte string back, leading zeros included. */
  lemma UnpackOfDigits(src: Bytes)
    ensures Unpack(Digits(Value(src), 8 * |src|)) == src
  {
    hide Digits, Number, TotalWidth, Value, BigEndian, Pow2;
    var v, p := Value(src), 8 * |src|;
    ValueBound(src);
    NumberOfDigits(v, p);
    WholeBytes(v, p, |src|);
    BigEndianOfValue(src);
  }

  lemma WholeBytes(v: nat, p: nat, n: nat)
    requires v < Pow2(p) && p == 8 * n
    ensures (TotalWidth(Digits(v, p)) + 7) / 8 == n
  {
    if p > 0 { WidthOfDigits(v, p); }
  }

  // ---- Canonical digit strings --------------------------------------------

  /** The digit strings that are the encoding of a p-bit number. */
  predicate Canonical(ds: seq<nat>, p: nat)
    requires ds != []
  {
    var r := p - BodyWidth(ds);
    var last := ds[|ds| - 1];
    && 1 <= r <= 6
    && last < Pow2(r)
    && !(r == 1 && |ds| >= 2 && Width(ds[|ds| - 2]) == 5 && last == 0)
  }

  lemma {:induction false} NumberUpperBound(ds: seq<nat>)
    requires AllDigits(ds)
    ensures Number(ds) < Pow2(TotalWidth(ds))
  {
    if |ds| == 1 {
      BitLenBound(ds[0], BitLen(ds[0]));
      assert Number(ds[1..]) == 0;
    } else if |ds| > 1 {
      NumberUpperBound(ds[1..]);
      Pow2Plus(TotalWidth(ds[1..]));
      assert TotalWidth(ds) == Width(ds[0]) + TotalWidth(ds[1..]);
    }
  }

  lemma NoDigits(v: nat)
    ensures Digits(v, 0) == []
  {}

  /** Digits takes one digit off: which one, and what is left. */
  lemma Unfold(v: nat, rest: nat, p: nat)
    requires p > 0
    requires
      var q := PosAfter(v % 64, p);
      q == 0 || rest == if SizeOf(v % 64, p) == 5 then v / 32 else v / 64
    ensures Digits(v, p) == [DigitOf(v % 64)] + Digits(rest, PosAfter(v % 64, p))
  {}

  lemma JoinParts(d: nat, rest: nat)
    requires d < 62
    ensures
      var v := Join(d, rest);
      if Width(d) == 5 then v / 32 == rest && (v % 64 == d || v % 64 == d + 32)
      else v / 64 == rest && v % 64 == d
  {}

  lemma DigitsStep(d: nat, rest: nat, p: nat)
    requires d < 62 && p > 6
    ensures Digits(Join(d, rest), p) == [d] + Digits(rest, p - Width(d))
  {
    JoinParts(d, rest);
    Unfold(Join(d, rest), rest, p);
  }

  /** A digit string with a p-bit value is an encoding exactly when it is canonical. */
  lemma CanonicalExactly(ds: seq<nat>, p: nat)
    requires ds != [] && AllDigits(ds) && Number(ds) < Pow2(p)
    ensures Digits(Number(ds), p) == ds <==> Canonical(ds, p)
  {
    if p > 0 && Digits(Number(ds), p) == ds { EncodingIsCanonical(Number(ds), p); }
    if Canonical(ds, p) { CanonicalIsEncoding(ds, p); }
  }

  lemma CanonicalCons(d: nat, tail: seq<nat>, p: nat)
    requires tail != [] && p >= Width(d)
    ensures Canonical([d] + tail, p) <==>
      Canonical(tail, p - Width(d)) &&
      !(|tail| == 1 && p - Width(d) == 1 && Width(d) == 5 && tail[0] == 0)
  {
    var ds := [d] + tail;
    assert ds[1..] == tail;
    assert p - BodyWidth(ds) == (p - Width(d)) - BodyWidth(tail);
    assert ds[|ds| - 1] == tail[|tail| - 1];
    assert ds[|ds| - 2] == if |tail| == 1 then d else tail[|tail| - 2];
    if |tail| == 1 { assert BodyWidth(tail) == 0; }
  }

  lemma {:induction false} EncodingIsCanonical(v: nat, p: nat)
    requires v < Pow2(p) && p > 0
    ensures Digits(v, p) != [] && Canonical(Digits(v, p), p)
    decreases p
  {
    var d, rest, p' := Step(v, p);
    if p' > 0 {
      EncodingIsCanonical(rest, p');
      CanonicalCons(d, Digits(rest, p'), p);
      if p' == 1 && Width(d) == 5 { LoneOne(); }
    }
  }

  lemma LoneOne()
    ensures Digits(1, 1) == [1]
  {}

  lemma {:induction false} CanonicalIsEncoding(ds: seq<nat>, p: nat)
    requires ds != [] && AllDigits(ds) && Canonical(ds, p)
    ensures Digits(Number(ds), p) == ds
    decreases |ds|
  {
    if |ds| == 1 {
      OneDigit(ds[0], p);
      assert ds == [ds[0]] && Number(ds[1..]) == 0;
    } else {
      assert ds == [ds[0]] + ds[1..];
      CanonicalCons(ds[0], ds[1..], p);
      CanonicalIsEncoding(ds[1..], p - Width(ds[0]));
      if p > 6 {
        DigitsStep(ds[0], Number(ds[1..]), p);
      } else {
        // five bits, then the single bit 1
        TailIsOne(ds, p);
        ShrunkWindow(ds[0]);
      }
    }
  }

  lemma TailIsOne(ds: seq<nat>, p: nat)
    requires |ds| >= 2 && p <= 6 && Canonical(ds, p)
    ensures p == 6 && Width(ds[0]) == 5 && ds[1..] == [1] && Number(ds[1..]) == 1
  {
    assert BodyWidth(ds) == Width(ds[0]) + BodyWidth(ds[1..]);
    assert |ds| == 2;
    assert Pow2(1) == 2 * Pow2(0);
    assert ds[1] == 1;
    assert Number([1][1..]) == 0;
  }

  lemma ShrunkWindow(d: nat)
    requires Width(d) == 5
    ensures Digits(d + 32, 6) == [d] + [1]
  {
    LoneOne();
    assert (d + 32) % 64 == d + 32 && (d + 32) % 32 == d && (d + 32) / 32 == 1;
  }

  lemma OneDigit(d: nat, p: nat)
    requires 1 <= p <= 6 && d < Pow2(p) && d < 62
    ensures Digits(d, p) == [d]
  {
    assert Digits(d / 64, 0) == [];
  }

  /**
   With s the bits of all digits but the last and r = 8 - s % 8: one to six bits are left for the
   last digit, it fits them, and it is not a lone 0 bit after a five-bit digit.
   */
  predicate CanonicalString(ds: seq<nat>)
    requires ds != []
  {
    var r := 8 - BodyWidth(ds) % 8;
    var last := ds[|ds| - 1];
    && 1 <= r <= 6
    && last < Pow2(r)
    && !(r == 1 && |ds| >= 2 && (ds[|ds| - 2] == 30 || ds[|ds| - 2] == 31) && last == 0)
  }

  lemma BitsLeft(s: nat, l: nat, n: nat)
    requires n == (s + l + 7) / 8 && l <= 6
    ensures s % 8 == 0 ==> 8 * n - s == 0 || 8 * n - s == 8
    ensures s % 8 != 0 && l <= 8 - s % 8 ==> 8 * n - s == 8 - s % 8
    ensures l > 8 - s % 8 ==> 8 * n - s > 8
  {}

  lemma CanonicalInWholeBytes(ds: seq<nat>, n: nat)
    requires ds != [] && AllDigits(ds) && n == (TotalWidth(ds) + 7) / 8
    ensures Canonical(ds, 8 * n) <==> CanonicalString(ds)
  {
    hide BitLen, Pow2, BodyWidth;
    var s, last := BodyWidth(ds), ds[|ds| - 1];
    var l := BitLen(last);
    assert last < Pow2(6) by { SmallPowers(); }
    BitLenBound(last, 6);
    BitsLeft(s, l, n);
    BitLenBound(last, 8 - s % 8);
    if 8 * n - s >= 0 { BitLenBound(last, 8 * n - s); }
  }

  /** Re-encoding what a digit string decodes to gives the string back exactly when it is canonical. */
  lemma CanonicalStrings(ds: seq<nat>)
    requires ds != [] && AllDigits(ds)
    ensures Digits(Value(Unpack(ds)), 8 * |Unpack(ds)|) == ds <==> CanonicalString(ds)
  {
    var n := (TotalWidth(ds) + 7) / 8;
    NumberUpperBound(ds);
    Pow2Monotone(TotalWidth(ds), 8 * n);
    ValueOfBigEndian(Number(ds), n);
    CanonicalExactly(ds, 8 * n);
    CanonicalInWholeBytes(ds, n);
  }

  // ---- Length -------------------------------------------------------------

  /** Between ceil(p/6) and ceil(p/5) digits. */
  lemma {:induction false} LengthBounds(v: nat, p: nat)
    requires v < Pow2(p)
    ensures (p + 5) / 6 <= |Digits(v, p)| <= (p + 4) / 5
    decreases p
  {
    if p > 0 {
      var d, rest, p' := Step(v, p);
      if p' > 0 { LengthBounds(rest, p'); }
    }
  }

  /** All-zero bits need the fewest digits. */
  lemma {:induction false} LengthOfZeros(p: nat)
    ensures |Digits(0, p)| == (p + 5) / 6
  {
    if p > 6 { LengthOfZeros(p - 6); }
  }

  /** All-one bits need the most. */
  lemma {:induction false} LengthOfOnes(p: nat)
    ensures |Digits(Pow2(p) - 1, p)| == (p + 4) / 5
  {
    if p > 5 {
      Pow2Plus(p - 5);
      Pow2Plus(p - 6);
      assert (Pow2(p) - 1) / 32 == Pow2(p - 5) - 1;
      assert (Pow2(p) - 1) % 64 == 63;
      LengthOfOnes(p - 5);
    } else if p > 0 {
      Shrink(Pow2(p) - 1, p);
      assert Digits((Pow2(p) - 1) / 64, 0) == [];
    }
  }
}
