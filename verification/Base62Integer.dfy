/** Radix-62 text for 64-bit integers, over the same alphabets. */
module Base62Integer {
  import opened Bytes
  import opened Base62Spec
  import opened Base62
  import opened Base62Encoding

  const TWO_63 := 0x8000_0000_0000_0000
  const TWO_64 := 0x1_0000_0000_0000_0000

  newtype uint64 = x: int | 0 <= x < 0x1_0000_0000_0000_0000
  newtype int64 = x: int | -0x8000_0000_0000_0000 <= x < 0x8000_0000_0000_0000

  /** Go's conversions between the two: the same 64 bits read differently. */
  function ToUint(n: int64): uint64 { (n as int % TWO_64) as uint64 }

  function ToInt(n: uint64): int64 {
    if n as int < TWO_63 then n as int as int64 else (n as int - TWO_64) as int64
  }

  // ---- Radix-62 digits, most significant first ----------------------------

  function Radix(n: nat): (ds: seq<nat>)
    ensures AllDigits(ds)
  {
    if n == 0 then [] else Radix(n / BASE) + [n % BASE]
  }

  /** Zero is written with one digit. */
  function Formatted(n: nat): (ds: seq<nat>)
    ensures AllDigits(ds)
  {
    if n == 0 then [0] else Radix(n)
  }

  function RadixValue(ds: seq<nat>): (n: nat) {
    if ds == [] then 0 else RadixValue(ds[..|ds| - 1]) * BASE + ds[|ds| - 1]
  }

  function Pow62(k: nat): (p: nat)
    ensures p >= 1
  {
    if k == 0 then 1 else BASE * Pow62(k - 1)
  }

  lemma {:induction false} RadixValueOfRadix(n: nat)
    ensures RadixValue(Radix(n)) == n
  {
    if n > 0 {
      RadixValueOfRadix(n / BASE);
      assert Radix(n)[..|Radix(n)| - 1] == Radix(n / BASE);
    }
  }

  lemma RadixValueOfFormatted(n: nat)
    ensures RadixValue(Formatted(n)) == n
  {
    if n == 0 {
      assert [0][..0] == [];
    } else {
      RadixValueOfRadix(n);
    }
  }

  /** No digit string for n is shorter than the one written. */
  lemma {:induction false} RadixIsShortest(n: nat, ds: seq<nat>)
    requires AllDigits(ds) && RadixValue(ds) == n
    ensures |Radix(n)| <= |ds|
    decreases |ds|
  {
    if n > 0 {
      var rest := ds[..|ds| - 1];
      assert n / BASE == RadixValue(rest);
      RadixIsShortest(n / BASE, rest);
    }
  }

  lemma {:induction false} RadixLength(n: nat, k: nat)
    requires n < Pow62(k)
    ensures |Radix(n)| <= k
  {
    if n > 0 { RadixLength(n / BASE, k - 1); }
  }

  /** Eleven digits are enough for 64 bits. */
  lemma ElevenDigits()
    ensures TWO_64 < Pow62(11)
  {
    assert Pow62(2) == 3844;
    assert Pow62(4) == 62 * Pow62(3) == 3844 * Pow62(2) == 14776336;
    assert Pow62(6) == 62 * Pow62(5) == 3844 * Pow62(4);
    assert Pow62(8) == 62 * Pow62(7) == 3844 * Pow62(6);
    assert Pow62(10) == 62 * Pow62(9) == 3844 * Pow62(8);
    assert Pow62(11) == 62 * Pow62(10);
  }

  /** The text of n. */
  function Text(alphabet: Bytes, n: nat): (s: Bytes)
    requires |alphabet| == BASE
  {
    Symbols(alphabet, Formatted(n))
  }

  /** The number that ParseUint makes of a string: its radix-62 value, cut to 64 bits. */
  function Parsed(alphabet: Bytes, s: Bytes): (n: nat)
    requires |alphabet| == BASE && Decodable(alphabet, s)
  {
    RadixValue(DigitsOf(alphabet, s)) % TWO_64
  }

  /** The symbol in front weighs most. */
  lemma {:induction false} LeadingDigit(d: nat, ds: seq<nat>)
    ensures RadixValue([d] + ds) == d * Pow62(|ds|) + RadixValue(ds)
  {
    if ds == [] {
      assert [d] + ds == [d] && [d][..0] == [];
    } else {
      var n := |ds| - 1;
      LeadingDigit(d, ds[..n]);
      assert ([d] + ds)[..|ds|] == [d] + ds[..n];
      assert d * Pow62(|ds|) == d * Pow62(n) * BASE;
    }
  }

  /** For example, a number of two digits. */
  lemma TwoSymbols(alphabet: Bytes, high: nat, low: nat)
    requires |alphabet| == BASE && 1 <= high < 62 && low < 62
    ensures Text(alphabet, 62 * high + low) == [alphabet[high], alphabet[low]]
  {
    var n := 62 * high + low;
    assert n / 62 == high && n % 62 == low && high / 62 == 0;
    assert Radix(high) == Radix(0) + [high];
    assert Formatted(n) == Radix(high) + [low] == [high, low];
  }

  lemma NoSymbols(alphabet: Bytes)
    requires |alphabet| == BASE
    ensures Symbols(alphabet, []) == []
  {}

  lemma NoRadix(low: seq<nat>)
    ensures Radix(0) + low == low
  {}

  lemma ZeroText(alphabet: Bytes)
    requires |alphabet| == BASE
    ensures Text(alphabet, 0) == [alphabet[0]]
  {}

  lemma RadixStep(num: nat, low: seq<nat>)
    requires num > 0
    ensures Radix(num) + low == Radix(num / BASE) + ([num % BASE] + low)
  {}

  lemma RadixLengthStep(num: nat, low: seq<nat>)
    requires num > 0
    ensures |Radix(num) + low| > |low|
  {}

  method AppendUint(enc: Encoding, dst: Bytes, n: uint64) returns (r: Bytes)
    requires enc.Valid()
    ensures r == dst + Text(enc.encode, n as int)
    ensures |r| <= |dst| + 11
  {
    hide Symbols, Radix, Pow62;
    var num := n as int;
    ElevenDigits();
    RadixLength(num, 11);
    if num == 0 {
      ZeroText(enc.encode);
      r := dst + [enc.encode[0]];
      return;
    }
    var buf := new byte[11](_ => 0);
    var i := 11;
    ghost var low: seq<nat> := [];
    NoSymbols(enc.encode);
    assert Radix(num) + [] == Radix(num);
    while num > 0
      invariant 0 <= num && 0 <= i <= 11
      invariant AllDigits(low) && Radix(n as int) == Radix(num) + low
      invariant i == 11 - |low|
      invariant buf[i..] == Symbols(enc.encode, low)
    {
      var d := num % BASE;
      ghost var out := buf[i..];
      RadixStep(num, low);
      SymbolsCons(enc.encode, d, low);
      RadixLengthStep(num, low);
      num := num / BASE;
      i := i - 1;
      buf[i] := enc.encode[d];
      low := [d] + low;
      assert buf[i..] == [enc.encode[d]] + out;
    }
    NoRadix(low);
    r := dst + buf[i..];
  }

  method FormatUint(enc: Encoding, num: uint64) returns (r: Bytes)
    requires enc.Valid()
    ensures r == Text(enc.encode, num as int) && |r| <= 11
  {
    r := AppendUint(enc, [], num);
  }

  method FormatInt(enc: Encoding, num: int64) returns (r: Bytes)
    requires enc.Valid()
    ensures r == Text(enc.encode, if num < 0 then num as int + 0x1_0000_0000_0000_0000 else num as int) && |r| <= 11
  {
    r := AppendUint(enc, [], ToUint(num));
  }

  method ParseUint(enc: Encoding, src: Bytes) returns (r: Result<uint64, nat>)
    requires enc.Valid()
    ensures r.Ok? <==> Decodable(enc.encode, src)
    ensures r.Ok? ==> r.value as int == RadixValue(DigitsOf(enc.encode, src)) % 0x1_0000_0000_0000_0000
    ensures r.Err? ==> FirstInvalid(enc.encode, src, r.error)
  {
    hide RadixValue;
    var num := 0;
    NothingParsed(enc.encode, src);
    for i := 0 to |src|
      invariant 0 <= num < TWO_64
      invariant Decodable(enc.encode, src[..i]) && num == Parsed(enc.encode, src[..i])
    {
      var x := enc.decodeMap[src[i]];
      if x == INVALID {
        return Err(i);
      }
      assert src[..i + 1] == src[..i] + [src[i]];
      ghost var ds := DigitsOf(enc.encode, src[..i]);
      assert DigitsOf(enc.encode, src[..i + 1]) == ds + [x];
      WrapStep(ds, x);
      num := (num * BASE + x) % TWO_64;
    }
    assert src[..|src|] == src;
    return Ok(num as uint64);
  }

  lemma NothingParsed(alphabet: Bytes, src: Bytes)
    requires |alphabet| == BASE
    ensures Decodable(alphabet, src[..0]) && Parsed(alphabet, src[..0]) == 0
  {}

  /** Cutting to 64 bits at every step is cutting once at the end. */
  lemma WrapStep(ds: seq<nat>, x: nat)
    ensures RadixValue(ds + [x]) % TWO_64 == (RadixValue(ds) % TWO_64 * BASE + x) % TWO_64
  {
    assert (ds + [x])[..|ds|] == ds;
    Wrap(RadixValue(ds), x);
  }

  lemma Wrap(v: nat, x: nat)
    ensures (v * BASE + x) % TWO_64 == (v % TWO_64 * BASE + x) % TWO_64
  {
    var q, w := v / TWO_64, v % TWO_64 * BASE + x;
    assert v * BASE + x == w + (q * BASE) * TWO_64;
    WrapTimes(w, q * BASE);
  }

  lemma {:induction false} WrapTimes(w: nat, k: nat)
    ensures (w + k * TWO_64) % TWO_64 == w % TWO_64
  {
    if k > 0 { WrapTimes(w, k - 1); }
  }

  method ParseInt(enc: Encoding, src: Bytes) returns (r: Result<int64, nat>)
    requires enc.Valid()
    ensures r.Ok? <==> Decodable(enc.encode, src)
    ensures r.Ok? ==>
      (r.value as int - RadixValue(DigitsOf(enc.encode, src))) % 0x1_0000_0000_0000_0000 == 0
    ensures r.Err? ==> FirstInvalid(enc.encode, src, r.error)
  {
    var num := ParseUint(enc, src);
    if num.Err? {
      return Err(num.error);
    }
    Congruent(num.value, RadixValue(DigitsOf(enc.encode, src)));
    return Ok(ToInt(num.value));
  }

  /** Reading the bits as signed changes the number by a multiple of two to the 64. */
  lemma Congruent(n: uint64, v: nat)
    requires n as int == v % TWO_64
    ensures (ToInt(n) as int - v) % TWO_64 == 0
  {
    var q := v / TWO_64;
    if n as int < TWO_63 {
      MultipleOf(-q);
      assert ToInt(n) as int - v == -q * TWO_64;
    } else {
      MultipleOf(-q - 1);
      assert ToInt(n) as int - v == (-q - 1) * TWO_64;
    }
  }

  lemma MultipleOf(k: int)
    ensures k * TWO_64 % TWO_64 == 0
  {}

  // ---- Round trips ----------------------------------------------------------

  ghost predicate UintSurvives(alphabet: Bytes, n: nat)
    requires |alphabet| == BASE
  {
    Decodable(alphabet, Text(alphabet, n)) && Parsed(alphabet, Text(alphabet, n)) == n
  }

  ghost predicate IntSurvives(alphabet: Bytes, n: int64)
    requires |alphabet| == BASE
  {
    var text := Text(alphabet, ToUint(n) as int);
    Decodable(alphabet, text) && ToInt(Parsed(alphabet, text) as uint64) == n
  }

  /** Every 64-bit number is read back from its text. */
  lemma UintRoundTrip(alphabet: Bytes, n: nat)
    requires |alphabet| == BASE && Distinct(alphabet) && n < TWO_64
    ensures UintSurvives(alphabet, n)
  {
    hide Symbols, DigitsOf, Formatted, RadixValue;
    DigitsOfSymbols(alphabet, Formatted(n));
    RadixValueOfFormatted(n);
  }

  /** Signed numbers, negative ones included, survive the detour through the unsigned text. */
  lemma IntRoundTrip(alphabet: Bytes, n: int64)
    requires |alphabet| == BASE && Distinct(alphabet)
    ensures IntSurvives(alphabet, n)
  {
    hide Text, Parsed;
    UintRoundTrip(alphabet, ToUint(n) as int);
  }

  /** A number below 62 is one symbol, which reads as the last position that holds it. */
  lemma OneSymbol(alphabet: Bytes, i: nat)
    requires |alphabet| == BASE && i < BASE
    ensures Text(alphabet, i) == [alphabet[i]] && Decodable(alphabet, Text(alphabet, i))
    ensures Parsed(alphabet, Text(alphabet, i)) == LastIndex(alphabet, alphabet[i])
  {
    assert Formatted(i) == [i] by { if i > 0 { assert Radix(i / BASE) == []; } }
    hide LastIndex;
    var s: Bytes := [alphabet[i]];
    assert Text(alphabet, i) == s;
    var ds := DigitsOf(alphabet, s);
    assert ds == [LastIndex(alphabet, alphabet[i])];
    assert ds[..0] == [] && RadixValue([]) == 0;
    assert RadixValue(ds) == ds[0];
  }

  lemma RepeatedSymbolLosesNumber(alphabet: Bytes, i: nat, j: nat)
    requires |alphabet| == BASE && i < j < BASE && alphabet[i] == alphabet[j]
    ensures !UintSurvives(alphabet, i) && !IntSurvives(alphabet, i as int64)
  {
    hide Text, Parsed, LastIndex;
    OneSymbol(alphabet, i);
    assert LastIndex(alphabet, alphabet[i]) >= j;
  }

  /** All unsigned numbers survive, and all signed ones, exactly for alphabets that repeat no symbol. */
  lemma IntegersNeedDistinctSymbols(alphabet: Bytes)
    requires |alphabet| == BASE
    ensures (forall n: nat :: n < TWO_64 ==> UintSurvives(alphabet, n)) <==> Distinct(alphabet)
    ensures (forall n: int64 :: IntSurvives(alphabet, n)) <==> Distinct(alphabet)
  {
    hide UintSurvives, IntSurvives;
    if Distinct(alphabet) {
      forall n: nat | n < TWO_64 ensures UintSurvives(alphabet, n) { UintRoundTrip(alphabet, n); }
      forall n: int64 ensures IntSurvives(alphabet, n) { IntRoundTrip(alphabet, n); }
    } else {
      var i, j :| 0 <= i < j < |alphabet| && alphabet[i] == alphabet[j];
      RepeatedSymbolLosesNumber(alphabet, i, j);
    }
  }

  // ---- Canonical texts --------------------------------------------------------

  /** Not empty, and no leading zero digit unless it is the only one. */
  predicate NoLeadingZero(ds: seq<nat>) { ds != [] && (|ds| == 1 || ds[0] != 0) }

  lemma {:induction false} RadixOfValue(ds: seq<nat>)
    requires AllDigits(ds) && (ds == [] || ds[0] != 0)
    ensures Radix(RadixValue(ds)) == ds
    ensures ds != [] ==> RadixValue(ds) > 0
  {
    if ds != [] {
      var rest, d := ds[..|ds| - 1], ds[|ds| - 1];
      RadixOfValue(rest);
      assert ds == rest + [d];
      assert (RadixValue(rest) * BASE + d) / BASE == RadixValue(rest);
    }
  }

  lemma {:induction false} RadixLeads(n: nat)
    requires n > 0
    ensures Radix(n) != [] && Radix(n)[0] != 0
  {
    if n >= BASE { RadixLeads(n / BASE); } else { assert Radix(n / BASE) == []; }
  }

  lemma FormattedExactly(ds: seq<nat>)
    requires AllDigits(ds)
    ensures Formatted(RadixValue(ds)) == ds <==> NoLeadingZero(ds)
  {
    var n := RadixValue(ds);
    if ds != [] && ds[0] != 0 {
      RadixOfValue(ds);
    } else if ds == [0] {
      assert ds[..0] == [];
    } else if n > 0 {
      RadixLeads(n);
    }
  }

  /** Formatting what a string parses to gives it back exactly if it is canonical and below 2^64. */
  lemma ReformattingIsCanonical(alphabet: Bytes, s: Bytes)
    requires |alphabet| == BASE && Distinct(alphabet) && Decodable(alphabet, s)
    ensures Text(alphabet, Parsed(alphabet, s)) == s <==>
      NoLeadingZero(DigitsOf(alphabet, s)) && RadixValue(DigitsOf(alphabet, s)) < TWO_64
  {
    hide Formatted, RadixValue, Symbols, DigitsOf, NoLeadingZero;
    var ds, n := DigitsOf(alphabet, s), Parsed(alphabet, s);
    SymbolsOfDigits(alphabet, s);
    DigitsOfSymbols(alphabet, Formatted(n));
    RadixValueOfFormatted(n);
    FormattedExactly(ds);
  }

  /** No text for n is shorter than the one written. */
  lemma TextIsShortest(alphabet: Bytes, n: nat, s: Bytes)
    requires |alphabet| == BASE && Decodable(alphabet, s) && s != []
    requires RadixValue(DigitsOf(alphabet, s)) == n
    ensures |Text(alphabet, n)| <= |s|
  {
    RadixIsShortest(n, DigitsOf(alphabet, s));
  }
}
