/** The base-62 byte codec: two encoders that read six-bit windows, and the decoder. */
module Base62 {
  import opened Bytes
  import opened Bits
  import opened Base62Bits
  import opened Base62Spec

  const BASE := 62
  const COMPACT_MASK := 0x1E
  const MASK_5_BITS := 0x1F
  const MASK_6_BITS := 0x3F
  const INVALID: byte := 0xFF

  // ---- What the methods compute -------------------------------------------

  /** The last position of c in the alphabet, or INVALID. */
  function LastIndex(alphabet: Bytes, c: byte): (r: byte)
    requires |alphabet| <= BASE
    ensures r == INVALID <==> c !in alphabet
    ensures r != INVALID ==> r < |alphabet| && alphabet[r] == c && forall k :: r < k < |alphabet| ==> alphabet[k] != c
  {
    if alphabet == [] then INVALID
    else
      var n := |alphabet| - 1;
      assert alphabet == alphabet[..n] + [alphabet[n]];
      if alphabet[n] == c then n
      else
        LastIndex(alphabet[..n], c)
  }

  predicate Distinct(s: Bytes) { forall i, j :: 0 <= i < j < |s| ==> s[i] != s[j] }

  predicate ValidAlphabet(alphabet: Bytes) {
    |alphabet| == BASE && '\n' as int !in alphabet && '\r' as int !in alphabet
  }

  /** The symbols of a digit string. */
  function Symbols(alphabet: Bytes, ds: seq<nat>): (s: Bytes)
    requires |alphabet| == BASE && AllDigits(ds)
    ensures |s| == |ds|
  {
    seq(|ds|, i requires 0 <= i < |ds| => alphabet[ds[i]])
  }

  /** The digits of a string over the alphabet. */
  function DigitsOf(alphabet: Bytes, s: Bytes): (ds: seq<nat>)
    requires |alphabet| == BASE && forall c :: c in s ==> c in alphabet
    ensures |ds| == |s| && AllDigits(ds)
  {
    seq(|s|, i requires 0 <= i < |s| => LastIndex(alphabet, s[i]))
  }

  /** What encoding produces. */
  function Encoded(alphabet: Bytes, src: Bytes): (s: Bytes)
    requires |alphabet| == BASE
  {
    ValueBound(src);
    DigitsAreDigits(Value(src), 8 * |src|);
    Symbols(alphabet, Digits(Value(src), 8 * |src|))
  }

  predicate Decodable(alphabet: Bytes, s: Bytes) { forall c :: c in s ==> c in alphabet }

  /** What decoding a string over the alphabet produces. */
  function Decoded(alphabet: Bytes, s: Bytes): (b: Bytes)
    requires |alphabet| == BASE && Decodable(alphabet, s)
  {
    Unpack(DigitsOf(alphabet, s))
  }

  /** i is the first position of s that is not in the alphabet. */
  predicate FirstInvalid(alphabet: Bytes, s: Bytes, i: nat) {
    i < |s| && s[i] !in alphabet && Decodable(alphabet, s[..i])
  }

  // ---- Main results -------------------------------------------------------

  lemma DigitsOfSymbols(alphabet: Bytes, ds: seq<nat>)
    requires |alphabet| == BASE && Distinct(alphabet) && AllDigits(ds)
    ensures Decodable(alphabet, Symbols(alphabet, ds))
    ensures DigitsOf(alphabet, Symbols(alphabet, ds)) == ds
  {
    var s := Symbols(alphabet, ds);
    forall i | 0 <= i < |ds| ensures LastIndex(alphabet, s[i]) == ds[i] {
      assert s[i] == alphabet[ds[i]];
      assert s[i] in alphabet;
      var r := LastIndex(alphabet, s[i]);
      assert alphabet[r] == alphabet[ds[i]];
    }
    forall c | c in s ensures c in alphabet {
      var i :| 0 <= i < |s| && s[i] == c;
      assert s[i] == alphabet[ds[i]];
    }
  }

  lemma SymbolsOfDigits(alphabet: Bytes, s: Bytes)
    requires |alphabet| == BASE && Decodable(alphabet, s)
    ensures Symbols(alphabet, DigitsOf(alphabet, s)) == s
  {}

  /** Decoding what was encoded gives the source back, whatever its length and leading zeros. */
  lemma RoundTrip(alphabet: Bytes, src: Bytes)
    requires |alphabet| == BASE && Distinct(alphabet)
    ensures Decodable(alphabet, Encoded(alphabet, src))
    ensures Decoded(alphabet, Encoded(alphabet, src)) == src
  {
    ValueBound(src);
    DigitsAreDigits(Value(src), 8 * |src|);
    DigitsOfSymbols(alphabet, Digits(Value(src), 8 * |src|));
    UnpackOfDigits(src);
  }

  /** The code of one byte: five or six low bits first, then the rest. */
  lemma OneByte(alphabet: Bytes, x: byte)
    requires |alphabet| == BASE
    ensures Encoded(alphabet, [x]) ==
      if x % 32 >= 30 then [alphabet[x % 32], alphabet[x / 32]] else [alphabet[x % 64], alphabet[x / 64]]
  {
    hide Digits;
    assert [x][..0] == [] && Value([x]) == Value([]) * 256 + x;
    OneByteDigits(x);
  }

  lemma OneByteDigits(x: byte)
    ensures Digits(x, 8) == if x % 32 >= 30 then [x % 32, x / 32] else [x % 64, x / 64]
  {
    var b := x % 64;
    assert b % 32 == x % 32;
    LastDigit(x / 32, 3);
    LastDigit(x / 64, 2);
    assert Digits(x, 8) == [DigitOf(b)] + Digits(if SizeOf(b, 8) == 5 then x / 32 else x / 64, PosAfter(b, 8));
  }

  lemma LastDigit(v: nat, p: nat)
    requires 0 < p <= 6 && v < 30
    ensures Digits(v, p) == [v]
  {
    assert v % 64 == v && Digits(0, 0) == [];
  }

  ghost predicate RoundTrips(alphabet: Bytes)
    requires |alphabet| == BASE
  {
    forall src: Bytes ::
      Decodable(alphabet, Encoded(alphabet, src)) && Decoded(alphabet, Encoded(alphabet, src)) == src
  }

  /** The constructor accepts repeated symbols; the round trip holds exactly for alphabets without them. */
  lemma RoundTripNeedsDistinctSymbols(alphabet: Bytes)
    requires |alphabet| == BASE
    ensures RoundTrips(alphabet) <==> Distinct(alphabet)
  {
    if Distinct(alphabet) {
      forall src: Bytes
        ensures Decodable(alphabet, Encoded(alphabet, src)) && Decoded(alphabet, Encoded(alphabet, src)) == src
      {
        RoundTrip(alphabet, src);
      }
    } else {
      var i, j :| 0 <= i < j < |alphabet| && alphabet[i] == alphabet[j];
      RepeatedSymbolFails(alphabet, i, j);
    }
  }

  /** The byte whose value is the smaller of two positions that share a symbol does not survive. */
  lemma RepeatedSymbolFails(alphabet: Bytes, i: nat, j: nat)
    requires |alphabet| == BASE && i < j < BASE && alphabet[i] == alphabet[j]
    ensures !(Decodable(alphabet, Encoded(alphabet, [i])) && Decoded(alphabet, Encoded(alphabet, [i])) == [i])
  {
    var src: Bytes := [i];
    assert Value(src) == i by { assert src[..0] == []; }
    SmallByteDigits(i);
    var s := Encoded(alphabet, src);
    if Decodable(alphabet, s) && Decoded(alphabet, s) == src {
      var ds := DigitsOf(alphabet, s);
      var d := LastIndex(alphabet, alphabet[i]);
      assert ds[0] == d;
      assert j <= d;
      NumberUpperBound(ds);
      var n := (TotalWidth(ds) + 7) / 8;
      Pow2Monotone(TotalWidth(ds), 8 * n);
      ValueOfBigEndian(Number(ds), n);
      assert Number(ds) == i;
      LowDigit(ds);
    }
  }

  lemma SmallByteDigits(i: nat)
    requires i < BASE
    ensures Digits(i, 8) == [i, 0]
  {
    if Compact(i % 64) {
      assert Digits(0, 3) == [0] + Digits(0, 0);
    } else {
      assert Digits(0, 2) == [0] + Digits(0, 0);
    }
  }

  lemma LowDigit(ds: seq<nat>)
    requires ds != [] && AllDigits(ds)
    ensures Number(ds) >= ds[0]
  {}

  /** Re-encoding a decoded string gives the string back exactly when the string is canonical. */
  lemma ReencodingIsCanonical(alphabet: Bytes, s: Bytes)
    requires |alphabet| == BASE && Distinct(alphabet) && Decodable(alphabet, s) && s != []
    ensures Encoded(alphabet, Decoded(alphabet, s)) == s <==> CanonicalString(DigitsOf(alphabet, s))
  {
    var ds := DigitsOf(alphabet, s);
    var bytes := Unpack(ds);
    CanonicalStrings(ds);
    SymbolsOfDigits(alphabet, s);
    ValueBound(bytes);
    DigitsAreDigits(Value(bytes), 8 * |bytes|);
    DigitsOfSymbols(alphabet, Digits(Value(bytes), 8 * |bytes|));
  }

  /** For n bytes, ceil(8n/6) to ceil(8n/5) symbols; all zeros need the fewest, all 0xFF the most. */
  lemma EncodedLength(alphabet: Bytes, src: Bytes)
    requires |alphabet| == BASE
    ensures (8 * |src| + 5) / 6 <= |Encoded(alphabet, src)| <= (8 * |src| + 4) / 5
    ensures (forall i :: 0 <= i < |src| ==> src[i] == 0) ==> |Encoded(alphabet, src)| == (8 * |src| + 5) / 6
    ensures (forall i :: 0 <= i < |src| ==> src[i] == 255) ==> |Encoded(alphabet, src)| == (8 * |src| + 4) / 5
  {
    ValueBound(src);
    LengthBounds(Value(src), 8 * |src|);
    if forall i :: 0 <= i < |src| ==> src[i] == 0 {
      ValueOfZeros(src);
      LengthOfZeros(8 * |src|);
    }
    if forall i :: 0 <= i < |src| ==> src[i] == 255 {
      ValueOfOnes(src);
      LengthOfOnes(8 * |src|);
    }
  }

  lemma {:induction false} ValueOfZeros(s: Bytes)
    requires forall i :: 0 <= i < |s| ==> s[i] == 0
    ensures Value(s) == 0
  {
    if s != [] { ValueOfZeros(s[..|s| - 1]); }
  }

  lemma {:induction false} ValueOfOnes(s: Bytes)
    requires forall i :: 0 <= i < |s| ==> s[i] == 255
    ensures Value(s) == Pow2(8 * |s|) - 1
  {
    if s != [] {
      ValueOfOnes(s[..|s| - 1]);
      Pow2Plus(8 * (|s| - 1));
    }
  }

  // ---- The encoders -------------------------------------------------------

  /** The six-bit window an encoder reads with p bits left. */
  function Window(src: Bytes, p: nat): (b: nat)
    requires p <= 8 * |src|
    ensures b < 64
  {
    Prefix(src, p) % 64
  }

  /** The digits still to come with p bits left. */
  function Remaining(src: Bytes, p: nat): (ds: seq<nat>)
    requires p <= 8 * |src|
    ensures AllDigits(ds)
  {
    PrefixBound(src, p);
    DigitsAreDigits(Prefix(src, p), p);
    Digits(Prefix(src, p), p)
  }

  /** One encoder step takes the first remaining digit. */
  lemma RemainingStep(src: Bytes, p: nat)
    requires 0 < p <= 8 * |src|
    ensures DigitOf(Window(src, p)) < BASE
    ensures Remaining(src, p) == [DigitOf(Window(src, p))] + Remaining(src, PosAfter(Window(src, p), p))
  {
    var b := Window(src, p);
    var q := PosAfter(b, p);
    PrefixBound(src, p);
    DigitsAreDigits(Prefix(src, p), p);
    if q == 0 {
      assert Remaining(src, 0) == [];
    } else if SizeOf(b, p) == 5 {
      PrefixShift5(src, p);
    } else {
      PrefixShift6(src, p);
    }
    Unfold(Prefix(src, p), Prefix(src, q), p);
  }

  lemma RemainingOfAll(src: Bytes)
    ensures Remaining(src, 8 * |src|) == Digits(Value(src), 8 * |src|)
  {
    PrefixOfAll(src);
  }

  /** The symbols still to come with p bits left. */
  function Tail(table: Bytes, src: Bytes, p: nat): (s: Bytes)
    requires |table| == BASE && p <= 8 * |src|
  {
    Symbols(table, Remaining(src, p))
  }

  lemma TailStep(table: Bytes, src: Bytes, p: nat)
    requires |table| == BASE && 0 < p <= 8 * |src|
    ensures DigitOf(Window(src, p)) < BASE
    ensures
      Tail(table, src, p) ==
      [table[DigitOf(Window(src, p))]] + Tail(table, src, PosAfter(Window(src, p), p))
  {
    RemainingStep(src, p);
    SymbolsCons(table, DigitOf(Window(src, p)), Remaining(src, PosAfter(Window(src, p), p)));
  }

  lemma NoTail(table: Bytes, src: Bytes, r: Bytes)
    requires |table| == BASE
    ensures Tail(table, src, 0) == [] && r + Tail(table, src, 0) == r
  {}

  lemma SymbolsCons(table: Bytes, d: nat, ds: seq<nat>)
    requires |table| == BASE && d < BASE && AllDigits(ds)
    ensures AllDigits([d] + ds)
    ensures Symbols(table, [d] + ds) == [table[d]] + Symbols(table, ds)
  {}

  /** The masks pick the digit and the size of the step. */
  lemma MaskedWindow(src: Bytes, p: nat)
    requires 0 < p <= 8 * |src|
    ensures
      var b := Window(src, p);
      var compact := And(b, COMPACT_MASK) == COMPACT_MASK;
      && compact == Compact(b)
      && And(b, MASK_5_BITS) == b % 32
      && (b > MASK_5_BITS ==> p >= 6)
  {
    hide And, Prefix, Pow2;
    CompactMask(Window(src, p));
    Mask5(Window(src, p));
    PrefixBound(src, p);
    Shrink(Prefix(src, p), p);
  }

  class Encoder {
    const src: Bytes
    var pos: int

    constructor (src: Bytes)
      ensures this.src == src && pos == 8 * |src|
    {
      this.src := src;
      pos := |src| * 8;
    }

    /** The bits left to read, as the obsolete encoder reads them: a window that starts at bit pos - 6. */
    method Next() returns (b: nat, more: bool)
      requires 0 < pos <= 8 * |src|
      modifies this
      ensures b == DigitOf(Window(src, old(pos)))
      ensures pos == PosAfter(Window(src, old(pos)), old(pos))
      ensures more <==> pos > 0
    {
      hide And, Or, Shr, ShlByte, Pow2, Window;
      var i, j, blen := 0, 0, 0;
      var p := this.pos - 6;
      if p <= 0 {
        p := 0;
        blen := this.pos;
      } else {
        i := p / 8;
        j := p % 8;
        assert p == 8 * i + j;
        blen := if (i + 1) * 8 - p < 6 then (i + 1) * 8 - p else 6;
      }
      var shift := 8 - j - blen;
      b := And(Shr(src[i], shift), Pow2(blen) - 1);
      ForwardWindow(src, this.pos, p, i, j, blen);
      if blen < 6 && p > 0 {
        var blen1 := 6 - blen;
        b := Or(ShlByte(b, blen1), Shr(src[i + 1], 8 - blen1));
      }
      assert b == Window(src, this.pos);
      MaskedWindow(src, this.pos);
      if And(b, COMPACT_MASK) == COMPACT_MASK {
        if p > 0 || b > MASK_5_BITS {
          p := p + 1;
        }
        b := And(b, MASK_5_BITS);
      }
      this.pos := p;
      more := p > 0;
    }

    /** The obsolete encoder. */
    method Encode(dst: Bytes, table: Bytes) returns (r: Bytes)
      requires pos == 8 * |src| && src != [] && |table| == BASE
      modifies this
      ensures r == dst + Encoded(table, src)
    {
      r := dst;
      RemainingOfAll(src);
      TailStep(table, src, pos);
      var x, more := Next();
      while true
        invariant 0 <= pos <= 8 * |src| && (more <==> pos > 0) && 0 <= x < |table|
        invariant r + ([table[x]] + Tail(table, src, pos)) == dst + Encoded(table, src)
        decreases pos, more
      {
        ghost var rest := Tail(table, src, pos);
        Regroup(r, [table[x]], rest);
        r := r + [table[x]];
        if !more { break; }
        TailStep(table, src, pos);
        x, more := Next();
      }
    }

    /** The current encoder: takes the low six bits of what is left until nothing is. */
    method EncodeV2(dst: Bytes, table: Bytes) returns (r: Bytes)
      requires pos == 8 * |src| && |table| == BASE
      modifies this
      ensures r == dst + Encoded(table, src)
    {
      hide And, Pow2, Prefix, Symbols, Remaining, Window;
      r := dst;
      RemainingOfAll(src);
      while pos > 0
        invariant pos <= 8 * |src|
        invariant r + Tail(table, src, if pos > 0 then pos else 0) == dst + Encoded(table, src)
      {
        var size := 6;
        var b := Get6Bits();
        ghost var rest := Tail(table, src, PosAfter(b, pos));
        MaskedWindow(src, pos);
        TailStep(table, src, pos);
        if And(b, COMPACT_MASK) == COMPACT_MASK {
          if pos > 6 || b > MASK_5_BITS {
            size := 5;
          }
          b := And(b, MASK_5_BITS);
        }
        Regroup(r, [table[b]], rest);
        r := r + [table[b]];
        pos := pos - size;
      }
      NoTail(table, src, r);
    }

    /** The low six bits of what is left, read backwards from the byte that holds the last of them. */
    function Get6Bits(): (w: nat)
      requires 0 < pos <= 8 * |src|
      reads this
      ensures w == Window(src, pos)
    {
      BytePosition(pos);
      var r0, i0 := And(pos, 0x7), Shr(pos, 3);
      var i, r := if r0 == 0 then i0 - 1 else i0, if r0 == 0 then 8 else r0;
      var b := Shr(src[i], 8 - r);
      BackwardWindow(src, i, r);
      And(if r < 6 && i > 0 then Or(b, ShlByte(src[i - 1], r)) else b, MASK_6_BITS)
    }
  }

  lemma BackwardWindow(src: Bytes, i: nat, r: nat)
    requires i < |src| && 1 <= r <= 8
    ensures
      (if r < 6 && i > 0
       then And(Or(Shr(src[i], 8 - r), ShlByte(src[i - 1], r)), MASK_6_BITS)
       else And(Shr(src[i], 8 - r), MASK_6_BITS))
      == Prefix(src, 8 * i + r) % 64
  {
    PrefixWindow(src, i, r);
    LowBits6(Prefix(src, 8 * i + r));
    if r < 6 && i > 0 {
      JoinBackward(src[i - 1], src[i], r);
    } else {
      AndMask6(Shr(src[i], 8 - r));
    }
  }

  /** pos & 7 and pos >> 3 */
  lemma BytePosition(p: nat)
    ensures And(p, 0x7) == p % 8 && Shr(p, 3) == p / 8
  {
    SmallPowers();
    AndMask(p, 3);
    LowBits3(p);
    assert Shr(p, 1) == p / 2 && Shr(p, 2) == p / 4;
  }

  /** The forward window with at most six bits left. */
  lemma LastWindow(src: Bytes, p: nat)
    requires 0 < p <= 6 && src != []
    ensures And(Shr(src[0], 8 - p), Pow2(p) - 1) == Prefix(src, p) % 64
  {
    hide Shr, Pow2, And, LowBits, Prefix;
    PrefixOfByte(src, 0, p);
    ShlZero(p);
    AndMask(Shr(src[0], 8 - p), p);
    PrefixBound(src, p);
    LowBitsBound(Prefix(src, p), p);
    Shrink(Prefix(src, p), p);
  }

  lemma SixOnes()
    ensures Pow2(6) - 1 == 0x3F
  {
    SmallPowers();
  }

  /** The forward window inside one byte. */
  lemma WholeWindow(src: Bytes, i: nat, j: nat)
    requires i < |src| && j <= 2
    ensures And(Shr(src[i], 2 - j), 0x3F) == Prefix(src, 8 * i + j + 6) % 64
  {
    PrefixWindow(src, i, j + 6);
    AndMask6(Shr(src[i], 2 - j));
    LowBits6(Prefix(src, 8 * i + j + 6));
  }

  /** The forward window over two bytes. */
  lemma SplitWindow(src: Bytes, i: nat, r: nat)
    requires i + 1 < |src| && 1 <= r <= 5
    ensures And(Shr(src[i], 0), Pow2(6 - r) - 1) == LowBits(src[i], 6 - r)
    ensures Or(ShlByte(LowBits(src[i], 6 - r), r), Shr(src[i + 1], 8 - r)) == Prefix(src, 8 * (i + 1) + r) % 64
  {
    hide And, Or, Shl, ShlByte, LowBits, Prefix, Pow2;
    PrefixWindow(src, i + 1, r);
    AndMask(src[i], 6 - r);
    JoinForward(src[i], src[i + 1], r);
    LowBits6(Prefix(src, 8 * (i + 1) + r));
  }

  /** What the forward reader joins is the window, however it lies over the bytes. */
  lemma ForwardWindow(src: Bytes, pos: nat, p: nat, i: nat, j: nat, blen: nat)
    requires 0 < pos <= 8 * |src|
    requires
      if pos <= 6 then p == i == j == 0 && blen == pos
      else p == pos - 6 && p == 8 * i + j && j < 8 && blen == if 8 - j < 6 then 8 - j else 6
    ensures i < |src|
    ensures
      var b := And(Shr(src[i], 8 - j - blen), Pow2(blen) - 1);
      if blen < 6 && p > 0
      then i + 1 < |src| && b < 256 && Or(ShlByte(b, 6 - blen), Shr(src[i + 1], 2 + blen)) == Window(src, pos)
      else b == Window(src, pos)
  {
    hide Shr, And, Or, ShlByte, Prefix, Pow2;
    if pos <= 6 {
      LastWindow(src, pos);
    } else if j <= 2 {
      SixOnes();
      WholeWindow(src, i, j);
    } else {
      SplitWindow(src, i, 6 - blen);
    }
  }
}
