/** An alphabet with its decode map; encoding and decoding of whole byte strings and into buffers. */
module Base62Encoding {
  import opened Bytes
  import opened Bits
  import opened Base62Bits
  import opened Base62Spec
  import opened Base62

  // ---- The decoder's accumulator ------------------------------------------

  /** The bits of a digit string whose last digit is not special. */
  function FullWidth(ds: seq<nat>): (w: nat) {
    if ds == [] then 0 else Width(ds[0]) + FullWidth(ds[1..])
  }

  lemma {:induction false} FullWidthBound(ds: seq<nat>)
    ensures FullWidth(ds) <= 6 * |ds|
  {
    if ds != [] { FullWidthBound(ds[1..]); }
  }

  /** A digit appended at the end has the weight of all the bits before it. */
  lemma {:induction false} NumberAppend(ds: seq<nat>, x: nat)
    ensures Number(ds + [x]) == Number(ds) + Shl(x, FullWidth(ds))
    ensures FullWidth(ds + [x]) == FullWidth(ds) + Width(x)
    ensures BodyWidth(ds + [x]) == FullWidth(ds)
  {
    if ds == [] {
      assert [x][1..] == [] && Number([x][1..]) == 0;
    } else {
      NumberAppend(ds[1..], x);
      assert (ds + [x])[1..] == ds[1..] + [x];
      var k := FullWidth(ds[1..]);
      assert Shl(x, k + 5) == 32 * Shl(x, k) by { ShlShl(x, k, 5); SmallShl(Shl(x, k)); }
      assert Shl(x, k + 6) == 64 * Shl(x, k) by { ShlShl(x, k, 6); SmallShl(Shl(x, k)); }
    }
  }

  /** The decoder's state after some digits: `out` is written, and `b` holds `pos` bits more. */
  ghost predicate Accumulated(v: nat, width: nat, out: Bytes, b: nat, pos: nat) {
    && v == Value(out) + Shl(b, 8 * |out|)
    && width == 8 * |out| + pos
    && b < Pow2(pos)
  }

  /** Taking in a digit of w bits. */
  lemma TakeDigit(v: nat, width: nat, out: Bytes, b: nat, pos: nat, x: nat, w: nat)
    requires Accumulated(v, width, out, b, pos) && x < Pow2(w)
    ensures Or(b, Shl(x, pos)) == b + Shl(x, pos)
    ensures Accumulated(v + Shl(x, width), width + w, out, b + Shl(x, pos), pos + w)
  {
    hide Or, Shl, Value;
    OrDisjoint(b, x, pos);
    ShlAdd(b, Shl(x, pos), 8 * |out|);
    ShlShl(x, pos, 8 * |out|);
    ShlBound(x, w, pos);
  }

  /** Writing out a full byte. */
  lemma EmitByte(v: nat, width: nat, out: Bytes, b: nat, pos: nat)
    requires Accumulated(v, width, out, b, pos) && pos >= 8
    ensures Accumulated(v, width, [b % 256] + out, b / 256, pos - 8)
  {
    var k := 8 * |out|;
    ValuePrepend(b % 256, out);
    ShlAdd(b % 256, 256 * (b / 256), k);
    ShlBy8(b / 256, 0);
    ShlShl(b / 256, 8, k);
    Pow2Plus(pos - 8);
  }

  /** Writing out the bits left at the end. */
  lemma EmitRest(v: nat, width: nat, out: Bytes, b: nat, pos: nat)
    requires Accumulated(v, width, out, b, pos) && pos < 8
    ensures b < 256
    ensures BigEndian(v, (width + 7) / 8) == if pos > 0 then [b] + out else out
  {
    Pow2Monotone(pos, 8);
    SmallPowers();
    ValuePrepend(b, out);
    var all := if pos > 0 then [b] + out else out;
    if pos == 0 { ShlZero(8 * |out|); }
    assert |all| == (width + 7) / 8 && Value(all) == v;
    BigEndianOfValue(all);
  }

  lemma CompactDigit(x: nat)
    requires x < BASE
    ensures And(x, COMPACT_MASK) == COMPACT_MASK <==> Width(x) == 5
  {
    CompactMask(x);
  }

  predicate DecodesAlphabet(table: Bytes, alphabet: Bytes) {
    && |alphabet| == BASE && |table| == 256
    && forall c: byte :: table[c] == LastIndex(alphabet, c)
  }

  /** The decoder's state after the first i symbols of src. */
  ghost predicate Decoding(alphabet: Bytes, src: Bytes, i: nat, out: Bytes, b: nat, pos: nat)
    requires |alphabet| == BASE && i <= |src|
  {
    && Decodable(alphabet, src[..i])
    && var ds := DigitsOf(alphabet, src[..i]);
    && 8 * |out| + pos <= 6 * i
    && Accumulated(Number(ds), if i == |src| then TotalWidth(ds) else FullWidth(ds), out, b, pos)
  }

  /** The bits the decoder takes from digit x at position i: the last digit counts its significant bits. */
  function TakenBits(src: Bytes, i: nat, x: nat): (w: nat) {
    if i == |src| - 1 then BitLen(x) else if And(x, COMPACT_MASK) == COMPACT_MASK then 5 else 6
  }

  lemma DecodingSoFar(alphabet: Bytes, src: Bytes, i: nat, out: Bytes, b: nat, pos: nat)
    requires |alphabet| == BASE && i <= |src| && Decoding(alphabet, src, i, out, b, pos)
    ensures Decodable(alphabet, src[..i])
  {}

  lemma DecodingStep(alphabet: Bytes, src: Bytes, i: nat, out: Bytes, b: nat, pos: nat)
    requires |alphabet| == BASE && i < |src| && Decoding(alphabet, src, i, out, b, pos)
    requires src[i] in alphabet
    ensures
      var x := LastIndex(alphabet, src[i]);
      Decoding(alphabet, src, i + 1, out, Or(b, Shl(x, pos)), pos + TakenBits(src, i, x))
  {
    hide Accumulated, Or, And, Shl, Pow2, Number, BitLen;
    var x := LastIndex(alphabet, src[i]);
    var ds := DigitsOf(alphabet, src[..i]);
    assert src[..i + 1] == src[..i] + [src[i]];
    assert DigitsOf(alphabet, src[..i + 1]) == ds + [x];
    CompactDigit(x);
    NumberAppend(ds, x);
    BitLenBound(x, BitLen(x));
    AtMostSixBits(x);
    SmallPowers();
    TakeDigit(Number(ds), FullWidth(ds), out, b, pos, x, TakenBits(src, i, x));
  }

  /** The bytes a decoding may need. */
  function Room(src: Bytes): (n: nat) { |src| * 6 / 8 + 1 }

  lemma DecodingEmit(alphabet: Bytes, src: Bytes, i: nat, out: Bytes, b: nat, pos: nat)
    requires |alphabet| == BASE && i <= |src| && Decoding(alphabet, src, i, out, b, pos)
    requires pos >= 8
    ensures Decoding(alphabet, src, i, [b % 256] + out, b / 256, pos - 8)
    ensures |out| < Room(src)
  {
    var ds := DigitsOf(alphabet, src[..i]);
    EmitByte(Number(ds), if i == |src| then TotalWidth(ds) else FullWidth(ds), out, b, pos);
  }

  lemma DecodingStart(alphabet: Bytes, src: Bytes)
    requires |alphabet| == BASE
    ensures Decoding(alphabet, src, 0, [], 0, 0)
  {
    assert src[..0] == [];
  }

  lemma DecodingEnd(alphabet: Bytes, src: Bytes, out: Bytes, b: nat, pos: nat)
    requires |alphabet| == BASE && Decoding(alphabet, src, |src|, out, b, pos) && pos < 8
    ensures Decodable(alphabet, src) && b < 256
    ensures Decoded(alphabet, src) == if pos > 0 then [b] + out else out
    ensures pos > 0 ==> |out| < Room(src)
  {
    assert src[..|src|] == src;
    var ds := DigitsOf(alphabet, src);
    EmitRest(Number(ds), TotalWidth(ds), out, b, pos);
  }

  lemma TableEntry(table: Bytes, alphabet: Bytes, c: byte)
    requires DecodesAlphabet(table, alphabet)
    ensures |alphabet| == BASE && |table| == 256 && table[c] == LastIndex(alphabet, c)
    ensures table[c] == INVALID <==> c !in alphabet
    ensures table[c] != INVALID ==> table[c] < BASE
  {}

  lemma FoundInvalid(alphabet: Bytes, src: Bytes, i: nat)
    requires |alphabet| == BASE && i < |src| && Decodable(alphabet, src[..i]) && src[i] !in alphabet
    ensures FirstInvalid(alphabet, src, i)
  {}

  lemma TakenAtMost(src: Bytes, i: nat, x: byte)
    requires x < BASE
    ensures TakenBits(src, i, x) <= 6
    ensures TakenBits(src, i, x) ==
      if i == |src| - 1 then BitLen(x) else if And(x, COMPACT_MASK) == COMPACT_MASK then 5 else 6
  {
    AtMostSixBits(x);
  }

  /** Writes one byte in front of the bytes already at the end of dst. */
  method PutBefore(dst: array<byte>, at: nat, x: byte, ghost out: Bytes)
    requires at < dst.Length && dst[at + 1..] == out
    modifies dst
    ensures dst[at..] == [x] + out
    ensures forall k :: 0 <= k < at ==> dst[k] == old(dst[k])
  {
    dst[at] := x;
    assert dst[at + 1..] == out;
  }

  /** Takes the bits of one digit; the last digit of src only brings its significant bits. */
  method TakeSymbol(src: Bytes, i: nat, x: byte, b: nat, pos: nat) returns (b': nat, pos': nat)
    ensures b' == Or(b, Shl(x, pos)) && pos' == pos + TakenBits(src, i, x)
  {
    if i == |src| - 1 {
      b' := Or(b, Shl(x, pos));
      pos' := pos + BitLen(x);
    } else if And(x, COMPACT_MASK) == COMPACT_MASK {
      b' := Or(b, Shl(x, pos));
      pos' := pos + 5;
    } else {
      b' := Or(b, Shl(x, pos));
      pos' := pos + 6;
    }
  }

  lemma HasRoom(alphabet: Bytes, src: Bytes, i: nat, out: Bytes, b: nat, pos: nat)
    requires |alphabet| == BASE && i <= |src| && Decoding(alphabet, src, i, out, b, pos) && pos >= 8
    ensures |out| < Room(src)
  {
    DecodingEmit(alphabet, src, i, out, b, pos);
  }

  /** Writes out the low byte of the accumulator. */
  method EmitFull(src: Bytes, i: nat, dst: array<byte>, at: nat, b: nat, pos: nat, ghost alphabet: Bytes,
                  ghost out: Bytes)
    returns (b': nat, pos': nat, ghost out': Bytes)
    requires |alphabet| == BASE && i <= |src| && Decoding(alphabet, src, i, out, b, pos) && 8 <= pos < 16
    requires at < dst.Length && dst[at + 1..] == out
    modifies dst
    ensures Decoding(alphabet, src, i, out', b', pos') && pos' < 8
    ensures dst[at..] == out' && forall k :: 0 <= k < at ==> dst[k] == old(dst[k])
  {
    hide Decoding, Room;
    DecodingEmit(alphabet, src, i, out, b, pos);
    PutBefore(dst, at, b % 256, out);
    out' := [b % 256] + out;
    pos' := pos % 8;
    b' := b / 256;
  }

  /** Decodes src into the end of dst[off..]; the result is where in it the decoded bytes start. */
  method DecodeInto(src: Bytes, dst: array<byte>, off: nat, table: Bytes, ghost alphabet: Bytes)
    returns (r: Result<nat, nat>)
    requires DecodesAlphabet(table, alphabet)
    requires off + Room(src) <= dst.Length
    modifies dst
    ensures dst[..off] == old(dst[..off])
    ensures r.Ok? ==>
      && Decodable(alphabet, src)
      && off + r.value <= dst.Length
      && dst[off + r.value..] == Decoded(alphabet, src)
    ensures r.Err? ==> FirstInvalid(alphabet, src, r.error)
  {
    hide Decoding, Decoded, Decodable, FirstInvalid, DecodesAlphabet, LastIndex, And, Or, Shl,
      BitLen, Pow2, TakenBits, Room;
    TableEntry(table, alphabet, 0);
    var idx := dst.Length - off;
    var pos, b := 0, 0;
    DecodingStart(alphabet, src);
    ghost var out: Bytes := [];
    for i := 0 to |src|
      invariant forall k :: 0 <= k < off ==> dst[k] == old(dst[k])
      invariant 0 <= idx <= dst.Length - off && 0 <= pos < 8 && 0 <= b
      invariant out == dst[off + idx..]
      invariant Decoding(alphabet, src, i, out, b, pos)
    {
      TableEntry(table, alphabet, src[i]);
      var x := table[src[i]];
      if x == INVALID {
        DecodingSoFar(alphabet, src, i, out, b, pos);
        FoundInvalid(alphabet, src, i);
        return Err(i);
      }
      DecodingStep(alphabet, src, i, out, b, pos);
      TakenAtMost(src, i, x);
      b, pos := TakeSymbol(src, i, x, b, pos);
      if pos >= 8 {
        HasRoom(alphabet, src, i + 1, out, b, pos);
        idx := idx - 1;
        b, pos, out := EmitFull(src, i + 1, dst, off + idx, b, pos, alphabet, out);
      }
    }
    DecodingEnd(alphabet, src, out, b, pos);
    if pos > 0 {
      idx := idx - 1;
      PutBefore(dst, off + idx, b % 256, out);
    }
    return Ok(idx);
  }

  /** A larger buffer with the same first bytes. */
  method Extended(dst: array<byte>, len: nat, size: nat) returns (out: array<byte>)
    requires len <= dst.Length && len <= size
    ensures fresh(out) && out.Length == size && out[..len] == dst[..len]
  {
    out := new byte[size];
    forall i | 0 <= i < len { out[i] := dst[i]; }
  }

  /** The overlapping move of the decoded bytes to where the result goes. */
  method MoveDown(out: array<byte>, len: nat, idx: nat)
    requires len + idx <= out.Length
    modifies out
    ensures out[..len] == old(out[..len])
    ensures out[len..out.Length - idx] == old(out[len + idx..])
  {
    forall i | len <= i < out.Length - idx { out[i] := out[i + idx]; }
  }

  lemma EmptyDecodes(alphabet: Bytes)
    requires ValidAlphabet(alphabet)
    ensures Decodable(alphabet, []) && Decoded(alphabet, []) == []
  {}

  lemma InvalidNotDecodable(alphabet: Bytes, src: Bytes, i: nat)
    requires FirstInvalid(alphabet, src, i)
    ensures !Decodable(alphabet, src)
  {
    assert src[i] in src;
  }

  lemma WholeResult(out: array<byte>, len: nat, outLen: nat)
    requires len <= outLen <= out.Length
    ensures out[..outLen] == out[..len] + out[len..outLen]
  {}

  lemma AtMostSixBits(x: nat)
    requires x < BASE
    ensures BitLen(x) <= 6
  {
    BitLenBound(x, 6);
    SmallPowers();
  }

  class Encoding {
    const encode: Bytes
    const decodeMap: Bytes

    ghost predicate Valid() {
      ValidAlphabet(encode) && DecodesAlphabet(decodeMap, encode)
    }

    constructor (alphabet: Bytes)
      requires ValidAlphabet(alphabet)
      ensures Valid() && encode == alphabet
    {
      encode := alphabet;
      var decode := new byte[256](_ => INVALID);
      for i := 0 to |alphabet|
        invariant forall c: byte :: decode[c] == LastIndex(alphabet[..i], c)
      {
        assert alphabet[..i + 1][..i] == alphabet[..i];
        decode[alphabet[i]] := i;
      }
      assert alphabet[..|alphabet|] == alphabet;
      decodeMap := decode[..];
    }

    method Encode(src: Bytes) returns (r: Bytes)
      requires Valid()
      ensures r == Encoded(encode, src)
    {
      r := EncodeV2(src);
    }

    /** The obsolete encoder: same output. */
    method EncodeV1(src: Bytes) returns (r: Bytes)
      requires Valid()
      ensures r == Encoded(encode, src)
    {
      if |src| == 0 {
        return [];
      }
      var encoder := new Encoder(src);
      r := encoder.Encode([], encode);
    }

    method EncodeV2(src: Bytes) returns (r: Bytes)
      requires Valid()
      ensures r == Encoded(encode, src)
    {
      if |src| == 0 {
        return [];
      }
      var encoder := new Encoder(src);
      r := encoder.EncodeV2([], encode);
    }

    /** Appends the encoding to dst, except that an empty source drops dst. */
    method EncodeToBuf(dst: Bytes, src: Bytes) returns (r: Bytes)
      requires Valid()
      ensures r == dst + Encoded(encode, src) <==> src != [] || dst == []
      ensures src == [] ==> r == []
    {
      if |src| == 0 {
        return [];
      }
      var encoder := new Encoder(src);
      r := encoder.EncodeV2(dst, encode);
    }

    method Decode(src: Bytes) returns (r: Result<Bytes, nat>)
      requires Valid()
      ensures r.Ok? <==> Decodable(encode, src)
      ensures r.Ok? ==> r.value == Decoded(encode, src)
      ensures r.Err? ==> FirstInvalid(encode, src, r.error)
    {
      if |src| == 0 {
        return Ok([]);
      }
      var dst := new byte[|src| * 6 / 8 + 1];
      var idx := DecodeInto(src, dst, 0, decodeMap, encode);
      if idx.Err? {
        return Err(idx.error);
      }
      return Ok(dst[idx.value..]);
    }

    /**
     Decodes onto the first `len` bytes of `dst`: in place when the buffer has room, otherwise in a copy.
     The buffer that holds the result and its length come back. An empty source drops dst.
     */
    method DecodeToBuf(dst: array<byte>, len: nat, src: Bytes)
      returns (err: Option<nat>, out: array<byte>, outLen: nat)
      requires Valid() && len <= dst.Length
      modifies dst
      ensures err.None? <==> Decodable(encode, src)
      ensures err.Some? ==> FirstInvalid(encode, src, err.value) && outLen == 0
      ensures dst[..len] == old(dst[..len])
      ensures outLen <= out.Length
      ensures err.None? ==> (out[..outLen] == old(dst[..len]) + Decoded(encode, src) <==> src != [] || len == 0)
      ensures src == [] ==> outLen == 0
      ensures out == dst || fresh(out)
      ensures err.None? && src != [] ==> (out == dst <==> len + |src| * 6 / 8 + 1 <= dst.Length)
    {
      hide Decoded, FirstInvalid, Decodable, DecodesAlphabet, ValidAlphabet, LastIndex;
      if |src| == 0 {
        EmptyDecodes(encode);
        out := new byte[0];
        return None, out, 0;
      }
      out := dst;
      var possibleLen := |src| * 6 / 8 + 1;
      if dst.Length < len + possibleLen {
        out := Extended(dst, len, len + possibleLen);
      }
      var idx := DecodeInto(src, out, len, decodeMap, encode);
      if idx.Err? {
        InvalidNotDecodable(encode, src, idx.error);
        return Some(idx.error), out, 0;
      }
      outLen := out.Length - idx.value;
      if idx.value != 0 {
        MoveDown(out, len, idx.value);
      }
      WholeResult(out, len, outLen);
      err := None;
    }
  }
}
