/** Base58 as a change of base between byte strings and strings over an alphabet of 58 characters. */
module Base58 {
  import opened Arithmetic
  import opened Wrappers

  // ---------- digits ----------

  ghost predicate InBase(b: nat, ds: seq<nat>) { forall i | 0 <= i < |ds| :: ds[i] < b }

  /** The number written by digits, most significant first. */
  function Value(b: nat, ds: seq<nat>): nat {
    if ds == [] then 0 else Value(b, ds[..|ds| - 1]) * b + ds[|ds| - 1]
  }

  /** The digits of a number, without a leading zero. */
  function Digits(b: nat, n: nat): seq<nat>
    requires b > 1
  {
    if n == 0 then [] else (Shrinks(n, b); Digits(b, n / b)) + [n % b]
  }

  lemma ValueStep(b: nat, ds: seq<nat>, d: nat)
    ensures Value(b, ds + [d]) == Value(b, ds) * b + d
  {
    assert (ds + [d])[..|ds|] == ds;
  }

  lemma {:induction false} DigitsValue(b: nat, n: nat)
    requires b > 1
    ensures Value(b, Digits(b, n)) == n && InBase(b, Digits(b, n))
    ensures Digits(b, n) != [] ==> Digits(b, n)[0] != 0
    decreases n
  {
    if n > 0 {
      DigitsStep(b, n);
    }
  }

  lemma {:induction false} DigitsStep(b: nat, n: nat)
    requires b > 1 && n > 0
    ensures Value(b, Digits(b, n)) == n && InBase(b, Digits(b, n))
    ensures Digits(b, n)[0] != 0
    decreases n, 0
  {
    hide Value, Digits;
    Shrinks(n, b);
    var q, r := n / b, n % b;
    DigitsUnfold(b, n);
    DigitsUnfold(b, q);
    DivisionBack(b, n);
    DigitsValue(b, q);
    ValueStep(b, Digits(b, q), r);
  }

  lemma DigitsUnfold(b: nat, n: nat)
    requires b > 1
    ensures n > 0 ==> Digits(b, n) == Digits(b, n / b) + [n % b]
    ensures n == 0 ==> Digits(b, n) == []
  {
  }

  lemma DivisionBack(b: nat, n: nat)
    requires b > 1
    ensures n / b * b + n % b == n && n % b < b
  {
  }

  lemma DigitsOfPositive(b: nat, n: nat)
    requires b > 1
    ensures n > 0 ==> Digits(b, n) != []
  {
  }

  function LeadingZeros(ds: seq<nat>): (z: nat)
    ensures z <= |ds| && (forall i | 0 <= i < z :: ds[i] == 0) && (z < |ds| ==> ds[z] != 0)
  {
    if ds == [] || ds[0] != 0 then 0 else 1 + LeadingZeros(ds[1..])
  }

  /** Leading zeros do not count, and the rest are the digits of the value. */
  lemma {:induction false} ValueDigits(b: nat, ds: seq<nat>)
    requires b > 1 && InBase(b, ds)
    ensures Digits(b, Value(b, ds)) == ds[LeadingZeros(ds)..]
    ensures Value(b, ds) == 0 <==> LeadingZeros(ds) == |ds|
    decreases |ds|
  {
    if ds != [] {
      var n := |ds| - 1;
      var rest := ds[..n];
      ValueDigits(b, rest);
      LeadingZerosOfPrefix(ds);
      DivMod(b, Value(b, rest), ds[n]);
      if Value(b, rest) == 0 {
        assert Value(b, ds) == ds[n];
        assert Digits(b, 0) == [];
      } else {
        assert Value(b, rest) * b >= 1 by { MulGrows(1, Value(b, rest), 1, b); }
        assert ds[LeadingZeros(ds)..] == rest[LeadingZeros(rest)..] + [ds[n]];
      }
    }
  }

  lemma {:induction false} LeadingZerosOfPrefix(ds: seq<nat>)
    requires ds != []
    ensures var n := |ds| - 1; var z := LeadingZeros(ds[..n]);
            LeadingZeros(ds) == if z < n then z else if ds[n] != 0 then n else n + 1
  {
    var n := |ds| - 1;
    var z, y := LeadingZeros(ds[..n]), LeadingZeros(ds);
    assert forall i | 0 <= i < n :: ds[..n][i] == ds[i];
  }

  lemma {:induction false} ValueBounded(b: nat, ds: seq<nat>)
    requires InBase(b, ds)
    ensures Value(b, ds) < Pow(b, |ds|)
    decreases |ds|
  {
    if ds != [] {
      var n := |ds| - 1;
      ValueBounded(b, ds[..n]);
      assert (Value(b, ds[..n]) + 1) * b == Value(b, ds[..n]) * b + b;
      MulGrows(Value(b, ds[..n]) + 1, Pow(b, n), b, b);
    }
  }

  lemma {:induction false} ValueAfterZeros(b: nat, ds: seq<nat>, z: nat)
    requires z <= |ds| && forall i | 0 <= i < z :: ds[i] == 0
    ensures Value(b, ds) == Value(b, ds[z..])
    decreases |ds|
  {
    if z == |ds| {
      ZerosValue(b, ds);
    } else {
      var n := |ds| - 1;
      ValueAfterZeros(b, ds[..n], z);
      assert ds[z..][..|ds[z..]| - 1] == ds[..n][z..];
    }
  }

  lemma {:induction false} ZerosValue(b: nat, ds: seq<nat>)
    requires forall i | 0 <= i < |ds| :: ds[i] == 0
    ensures Value(b, ds) == 0
    decreases |ds|
  {
    if ds != [] {
      ZerosValue(b, ds[..|ds| - 1]);
    }
  }

  // ---------- change of base ----------

  /** Leading zeros are kept one for one; the rest is written in the other base. */
  function Convert(a: nat, b: nat, ds: seq<nat>): seq<nat>
    requires b > 1
  {
    Zeros(LeadingZeros(ds)) + Digits(b, Value(a, ds))
  }

  lemma {:induction false} ZerosThen(ds: seq<nat>, z: nat)
    requires ds != [] ==> ds[0] != 0
    ensures LeadingZeros(Zeros(z) + ds) == z
    decreases z
  {
    var r := Zeros(z) + ds;
    assert forall i | 0 <= i < |ds| :: r[z + i] == ds[i];
    assert forall i | 0 <= i < z :: r[i] == 0;
    if ds != [] {
      assert r[z] == ds[0];
    }
  }

  lemma ConvertInBase(a: nat, b: nat, ds: seq<nat>)
    requires b > 1
    ensures InBase(b, Convert(a, b, ds)) && LeadingZeros(Convert(a, b, ds)) == LeadingZeros(ds)
    ensures Value(b, Convert(a, b, ds)) == Value(a, ds)
  {
    var z, low := LeadingZeros(ds), Digits(b, Value(a, ds));
    DigitsValue(b, Value(a, ds));
    ZerosThen(low, z);
    ValueAfterZeros(b, Zeros(z) + low, z);
    assert (Zeros(z) + low)[z..] == low;
  }

  /** Changing base and back gives the same digits. */
  lemma ConvertBack(a: nat, b: nat, ds: seq<nat>)
    requires a > 1 && b > 1 && InBase(a, ds)
    ensures Convert(b, a, Convert(a, b, ds)) == ds
  {
    ConvertInBase(a, b, ds);
    ValueDigits(a, ds);
    assert ds == Zeros(LeadingZeros(ds)) + ds[LeadingZeros(ds)..];
  }

  // ---------- the alphabet ----------

  /** Consecutive characters. */
  function Run(first: char, n: nat): (s: string)
    requires first as int + n <= 128
    ensures |s| == n && forall i | 0 <= i < n :: s[i] as int == first as int + i
  {
    seq(n, i requires 0 <= i < n => (first as int + i) as char)
  }

  /** pszBase58 */
  const ALPHABET: string := Run('1', 9) + Run('A', 8) + Run('J', 5) + Run('P', 11) + Run('a', 11) + Run('m', 14)

  lemma AlphabetRuns()
    ensures Run('1', 9) == "123456789" && Run('A', 8) == "ABCDEFGH" && Run('J', 5) == "JKLMN"
    ensures Run('P', 11) == "PQRSTUVWXYZ" && Run('a', 11) == "abcdefghijk" && Run('m', 14) == "mnopqrstuvwxyz"
  {
  }

  lemma AlphabetIs()
    ensures ALPHABET == "123456789ABCDEFGHJKLMNPQRSTUVWXYZabcdefghijkmnopqrstuvwxyz"
  {
    hide Run;
    AlphabetRuns();
    UpperHalf();
    LowerHalf();
    BothHalves();
    assert ALPHABET == Run('1', 9) + Run('A', 8) + Run('J', 5) + Run('P', 11) + (Run('a', 11) + Run('m', 14));
  }

  lemma BothHalves()
    ensures "123456789ABCDEFGHJKLMNPQRSTUVWXYZ" + "abcdefghijkmnopqrstuvwxyz" == "123456789ABCDEFGHJKLMNPQRSTUVWXYZabcdefghijkmnopqrstuvwxyz"
  {
  }

  lemma UpperHalf()
    ensures "123456789" + "ABCDEFGH" + "JKLMN" + "PQRSTUVWXYZ" == "123456789ABCDEFGHJKLMNPQRSTUVWXYZ"
  {
  }

  lemma LowerHalf()
    ensures "abcdefghijk" + "mnopqrstuvwxyz" == "abcdefghijkmnopqrstuvwxyz"
  {
  }

  /** The character codes of the alphabet. */
  function Code(i: nat): int {
    if i < 9 then 49 + i else if i < 17 then 56 + i else if i < 22 then 57 + i
    else if i < 33 then 58 + i else if i < 44 then 64 + i else 65 + i
  }

  lemma AlphabetCode(i: nat)
    requires i < 58
    ensures |ALPHABET| == 58 && ALPHABET[i] as int == Code(i)
  {
  }

  /** The alphabet is in ascending order, so no character occurs twice. */
  lemma AlphabetAscends(i: nat, j: nat)
    requires i < j < 58
    ensures |ALPHABET| == 58 && ALPHABET[i] < ALPHABET[j]
  {
    AlphabetCode(i);
    AlphabetCode(j);
  }

  predicate IsDigitOrLetter(c: char) {
    '0' <= c <= '9' || 'A' <= c <= 'Z' || 'a' <= c <= 'z'
  }

  /** The alphabet holds the digits and letters but for 0, I, O and l. */
  lemma AlphabetHolds(c: char)
    ensures c in ALPHABET <==> IsDigitOrLetter(c) && c != '0' && c != 'I' && c != 'O' && c != 'l'
  {
    if c in ALPHABET {
      var i: nat :| i < |ALPHABET| && ALPHABET[i] == c;
      AlphabetCode(i);
    }
    if IsDigitOrLetter(c) && c != '0' && c != 'I' && c != 'O' && c != 'l' {
      var k := c as int;
      var i := if k <= 57 then k - 49 else if k < 73 then k - 56 else if k < 79 then k - 57
               else if k < 97 then k - 58 else if k < 108 then k - 64 else k - 65;
      AlphabetCode(i);
    }
  }

  /** The position of a character in the alphabet, searched from position k. */
  function Search(c: char, k: nat): (r: Option<nat>)
    requires k <= 58
    ensures r.Some? ==> k <= r.value < 58 && ALPHABET[r.value] == c
    ensures r.None? ==> forall i | k <= i < 58 :: ALPHABET[i] != c
    decreases 58 - k
  {
    if k == 58 then None else if ALPHABET[k] == c then Some(k) else Search(c, k + 1)
  }

  lemma SearchFinds(k: nat)
    requires k < 58
    ensures Search(ALPHABET[k], 0) == Some(k)
  {
    var r := Search(ALPHABET[k], 0);
    if r.Some? && r.value < k {
      AlphabetAscends(r.value, k);
    } else if r.Some? && k < r.value {
      AlphabetAscends(k, r.value);
    }
  }

  predicate IsSymbol(c: char) { Search(c, 0).Some? }

  predicate IsSpace(c: char) { c == ' ' || 9 <= c as int <= 13 }

  /** What isspace accepts: blank, tab, line feed, vertical tab, form feed and carriage return. */
  lemma SpacesAre(c: char)
    ensures IsSpace(c) <==> c in [' ', '\t', '\n', 11 as char, 12 as char, '\r']
  {
  }

  lemma SymbolsAreNotSpaces(c: char)
    ensures IsSymbol(c) ==> !IsSpace(c)
  {
    if IsSymbol(c) {
      AlphabetCode(Search(c, 0).value);
    }
  }

  ghost predicate Word(s: string) { forall i | 0 <= i < |s| :: IsSymbol(s[i]) }

  ghost predicate Blank(s: string) { forall i | 0 <= i < |s| :: IsSpace(s[i]) }

  function Symbols(ds: seq<nat>): (s: string)
    requires InBase(58, ds)
    ensures |s| == |ds|
  {
    seq(|ds|, i requires 0 <= i < |ds| => ALPHABET[ds[i]])
  }

  function Indices(s: string): (ds: seq<nat>)
    requires Word(s)
    ensures |ds| == |s| && InBase(58, ds)
  {
    seq(|s|, i requires 0 <= i < |s| => Search(s[i], 0).value)
  }

  lemma IndicesOfSymbols(ds: seq<nat>)
    requires InBase(58, ds)
    ensures Word(Symbols(ds)) && Indices(Symbols(ds)) == ds
  {
    forall i | 0 <= i < |ds| ensures IsSymbol(Symbols(ds)[i]) && Search(Symbols(ds)[i], 0).value == ds[i] {
      SearchFinds(ds[i]);
    }
  }

  lemma SymbolsOfIndices(s: string)
    requires Word(s)
    ensures Symbols(Indices(s)) == s
  {
  }

  // ---------- why the buffers are long enough ----------

  /** If x^p <= y^q then y^size is at least x^n as soon as size / n is at least q / p. */
  lemma Fits(x: nat, p: nat, y: nat, q: nat, n: nat, size: nat)
    requires Pow(x, p) <= Pow(y, q) && p > 0 && y > 0 && q * n <= size * p
    ensures Pow(x, n) <= Pow(y, size)
  {
    hide Pow;
    PowSwap(x, p, n);
    PowInBase(Pow(x, p), Pow(y, q), n);
    PowTimes(y, q, n);
    PowGrows(y, q * n, size * p);
    PowTimes(y, size, p);
    PowReflects(Pow(x, n), Pow(y, size), p);
  }

  /** 58^11 >= 256^8 makes 138/100 digits of base 58 enough for each byte. */
  lemma EncodeFits(n: nat)
    ensures Pow(256, n) <= Pow(58, n * 138 / 100 + 1)
  {
    ElevenDigits();
    Fits(256, 8, 58, 11, n, n * 138 / 100 + 1);
  }

  /** 58^22 <= 2^129 makes 733/1000 bytes enough for each digit of base 58. */
  lemma DecodeFits(n: nat)
    ensures Pow(58, n) <= Pow(256, n * 733 / 1000 + 1)
  {
    var size := n * 733 / 1000 + 1;
    TwentyTwoDigits();
    Fits(58, 22, 2, 129, n, 8 * size);
    PowTimes(2, 8, size);
    Byte();
  }

  lemma Byte()
    ensures Pow(2, 8) == 256 && Pow(256, 8) == 18446744073709551616
  {
    hide Pow;
    PowOne(2);
    Power(2, 1, 1, 2, 2);
    Power(2, 2, 2, 4, 4);
    Power(2, 4, 4, 16, 16);
    PowOne(256);
    Power(256, 1, 1, 256, 256);
    Power(256, 2, 2, 65536, 65536);
    Power(256, 4, 4, 4294967296, 4294967296);
  }

  lemma EightDigits()
    ensures Pow(58, 2) == 3364 && Pow(58, 4) == 11316496 && Pow(58, 8) == 128063081718016
  {
    hide Pow;
    PowOne(58);
    Power(58, 1, 1, 58, 58);
    Power(58, 2, 2, 3364, 3364);
    Power(58, 4, 4, 11316496, 11316496);
  }

  lemma ElevenDigits()
    ensures Pow(256, 8) <= Pow(58, 11)
  {
    hide Pow;
    Byte();
    EightDigits();
    PowOne(58);
    Power(58, 2, 1, 3364, 58);
    Power(58, 8, 3, 128063081718016, 195112);
  }

  lemma TwentyTwoDigits()
    ensures Pow(58, 22) <= Pow(2, 129)
  {
    hide Pow;
    EightDigits();
    Power(58, 4, 2, 11316496, 3364);
    Power(58, 8, 8, 128063081718016, 128063081718016);
    Power(58, 16, 6, 16400152899115243850138976256, 38068692544);
    Byte();
    PowTimes(2, 8, 8);
    Power(2, 64, 64, 18446744073709551616, 18446744073709551616);
    PowOne(2);
    Power(2, 128, 1, 340282366920938463463374607431768211456, 2);
  }

  // ---------- encoding and decoding ----------

  function Encode(v: seq<nat>): string {
    ConvertInBase(256, 58, v);
    Symbols(Convert(256, 58, v))
  }

  /** How many characters from the front are white space. */
  function Spaces(s: string): (n: nat)
    ensures n <= |s| && Blank(s[..n]) && (n < |s| ==> !IsSpace(s[n]))
  {
    if s == "" || !IsSpace(s[0]) then 0 else 1 + Spaces(s[1..])
  }

  /** How many characters from the front are not. */
  function NonSpaces(s: string): (n: nat)
    ensures n <= |s| && (forall i | 0 <= i < n :: !IsSpace(s[i])) && (n < |s| ==> IsSpace(s[n]))
  {
    if s == "" || IsSpace(s[0]) then 0 else 1 + NonSpaces(s[1..])
  }

  /** Between white space, symbols only; anything else is refused. */
  ghost function Decode(s: string): Option<seq<nat>> {
    var t := s[Spaces(s)..];
    var word, rest := t[..NonSpaces(t)], t[NonSpaces(t)..];
    if Word(word) && Blank(rest) then Some(Convert(58, 256, Indices(word))) else None
  }

  lemma DecodePadded(before: string, word: string, after: string)
    requires Blank(before) && Word(word) && Blank(after)
    ensures Decode(before + word + after) == Some(Convert(58, 256, Indices(word)))
  {
    var s := before + word + after;
    forall i | 0 <= i < |word| ensures !IsSpace(word[i]) { SymbolsAreNotSpaces(word[i]); }
    if word == "" {
      assert s == before + after && Spaces(s) == |s| by { AllSpaces(s); }
      assert s[|s|..] == "" == word;
    } else {
      SpacesThen(before, word + after);
      assert s == before + (word + after);
      var t := s[Spaces(s)..];
      assert t == word + after;
      NonSpacesThen(word, after);
    }
  }

  lemma AllSpaces(s: string)
    requires Blank(s)
    ensures Spaces(s) == |s|
  {
  }

  lemma SpacesThen(before: string, rest: string)
    requires Blank(before) && (rest != "" ==> !IsSpace(rest[0]))
    ensures Spaces(before + rest) == |before|
  {
    var s := before + rest;
    assert forall i | 0 <= i < |before| :: s[i] == before[i] && IsSpace(s[i]);
    assert rest != "" ==> s[|before|] == rest[0];
    assert forall i | 0 <= i < Spaces(s) :: s[..Spaces(s)][i] == s[i];
  }

  lemma NonSpacesThen(word: string, after: string)
    requires (forall i | 0 <= i < |word| :: !IsSpace(word[i])) && Blank(after)
    ensures NonSpaces(word + after) == |word|
  {
    var s := word + after;
    assert forall i | 0 <= i < |word| :: s[i] == word[i] && !IsSpace(s[i]);
    assert after != "" ==> s[|word|] == after[0];
  }

  /** Decoding undoes encoding, whatever white space surrounds it. */
  lemma DecodeEncode(v: seq<nat>, before: string, after: string)
    requires InBase(256, v) && Blank(before) && Blank(after)
    ensures Decode(before + Encode(v) + after) == Some(v)
  {
    ConvertInBase(256, 58, v);
    IndicesOfSymbols(Convert(256, 58, v));
    DecodePadded(before, Encode(v), after);
    ConvertBack(256, 58, v);
  }

  /** Encoding undoes decoding: every word over the alphabet decodes, and encodes back to itself. */
  lemma EncodeDecode(s: string)
    requires Word(s)
    ensures Decode(s).Some? && InBase(256, Decode(s).value) && Encode(Decode(s).value) == s
  {
    DecodePadded("", s, "");
    assert "" + s + "" == s;
    ConvertInBase(58, 256, Indices(s));
    ConvertBack(58, 256, Indices(s));
    SymbolsOfIndices(s);
  }

  /** Nothing else decodes: what is accepted is an encoding between white space. */
  lemma DecodedIsPadded(s: string) returns (before: string, after: string)
    requires Decode(s).Some?
    ensures Blank(before) && Blank(after) && InBase(256, Decode(s).value)
    ensures s == before + Encode(Decode(s).value) + after
  {
    hide Encode, Convert, Indices, InBase, Spaces, NonSpaces, IsSymbol, IsSpace;
    before := s[..Spaces(s)];
    var t := s[Spaces(s)..];
    var word := t[..NonSpaces(t)];
    after := t[NonSpaces(t)..];
    assert s == before + (word + after);
    assert s == before + word + after;
    EncodeDecode(word);
    DecodePadded(before, word, after);
    DecodePadded("", word, "");
    assert "" + word + "" == word;
  }

  /** The base change is the one that keeps the leading zeros and the number. */
  lemma ConvertIs(a: nat, b: nat, ds: seq<nat>, es: seq<nat>)
    requires b > 1 && InBase(b, es) && LeadingZeros(ds) == LeadingZeros(es) && Value(a, ds) == Value(b, es)
    ensures Convert(a, b, ds) == es
  {
    ValueDigits(b, es);
    assert es == Zeros(LeadingZeros(es)) + es[LeadingZeros(es)..];
  }

  lemma ValueOfOne(b: nat, d: nat)
    ensures Value(b, [d]) == d
  {
    assert Value(b, []) == 0;
    ValueStep(b, [], d);
    assert [] + [d] == [d];
  }

  lemma ValueOfThree(b: nat, c: nat, d: nat, e: nat)
    ensures Value(b, [c, d]) == c * b + d
    ensures Value(b, [c, d, e]) == (c * b + d) * b + e
  {
    ValueOfOne(b, c);
    ValueStep(b, [c], d);
    ValueStep(b, [c, d], e);
    assert [c] + [d] == [c, d] && [c, d] + [e] == [c, d, e];
  }

  lemma ShortExamples()
    ensures Encode([]) == "" && Encode([17]) == "J" && Encode([0x61]) == "2g"
  {
    hide Value, Encode, Convert, InBase;
    assert Value(256, []) == 0 == Value(58, []) by { NothingIsZero(256); NothingIsZero(58); }
    EncodedIs([], []);
    ValueOfOne(256, 17);
    ValueOfOne(58, 17);
    EncodedIs([17], [17]);
    ValueOfOne(256, 0x61);
    ValueOfThree(58, 1, 39, 0);
    EncodedIs([0x61], [1, 39]);
    AlphabetCode(17);
    AlphabetCode(1);
    AlphabetCode(39);
  }

  lemma NothingIsZero(b: nat)
    ensures Value(b, []) == 0
  {
  }

  lemma FourSymbols(v: seq<nat>, c: nat, d: nat, e: nat, f: nat)
    requires |v| == 3 && v[0] != 0 && 0 < c < 58 && d < 58 && e < 58 && f < 58
    requires (v[0] * 256 + v[1]) * 256 + v[2] == ((c * 58 + d) * 58 + e) * 58 + f
    ensures Encode(v) == [ALPHABET[c], ALPHABET[d], ALPHABET[e], ALPHABET[f]]
  {
    hide Value, Encode, Convert;
    ValueOfThree(256, v[0], v[1], v[2]);
    assert v == [v[0], v[1], v[2]];
    ValueOfThree(58, c, d, e);
    ValueStep(58, [c, d, e], f);
    assert [c, d, e] + [f] == [c, d, e, f];
    EncodedIs(v, [c, d, e, f]);
    assert Symbols([c, d, e, f]) == [ALPHABET[c], ALPHABET[d], ALPHABET[e], ALPHABET[f]];
  }

  /** Some of the pairs of src/test/data/base58_encode_decode.json, and one byte that is one symbol. */
  lemma EncodedExamples()
    ensures Encode([]) == "" && Encode([17]) == "J" && Encode([0x61]) == "2g"
    ensures Encode([0x62, 0x62, 0x62]) == "a3gV" && Encode([0x63, 0x63, 0x63]) == "aPEr"
  {
    hide Encode;
    ShortExamples();
    FourSymbols([0x62, 0x62, 0x62], 33, 2, 39, 28);
    FourSymbols([0x63, 0x63, 0x63], 33, 22, 13, 49);
  }

  lemma EncodedIs(v: seq<nat>, es: seq<nat>)
    requires InBase(58, es) && LeadingZeros(v) == LeadingZeros(es) && Value(256, v) == Value(58, es)
    ensures Encode(v) == Symbols(es)
  {
    ConvertIs(256, 58, v, es);
  }

  /** Each leading zero byte is a leading 1. */
  lemma LeadingZerosAreOnes(v: seq<nat>)
    requires InBase(256, v)
    ensures var s := Encode(v);
            && LeadingZeros(v) <= |s|
            && (forall i | 0 <= i < LeadingZeros(v) :: s[i] == '1') && (LeadingZeros(v) < |s| ==> s[LeadingZeros(v)] != '1')
  {
    ConvertInBase(256, 58, v);
    AlphabetCode(0);
    var ds, z := Convert(256, 58, v), LeadingZeros(v);
    if z < |ds| {
      AlphabetCode(ds[z]);
    }
  }

  // ---------- with a checksum ----------

  /** The first four bytes of the hash. */
  ghost predicate Checksum(sum: seq<nat> -> seq<nat>) {
    forall v :: |sum(v)| == 4 && InBase(256, sum(v))
  }

  function EncodeCheck(sum: seq<nat> -> seq<nat>, v: seq<nat>): string { Encode(v + sum(v)) }

  ghost function DecodeCheck(sum: seq<nat> -> seq<nat>, s: string): Option<seq<nat>> {
    match Decode(s)
    case None => None
    case Some(v) =>
      var n := |v| - 4;
      if n < 0 || sum(v[..n]) != v[n..] then None else Some(v[..n])
  }

  /** The content comes first, then the checksum. */
  lemma ChecksumIsAtTheEnd(sum: seq<nat> -> seq<nat>, v: seq<nat>)
    requires Checksum(sum) && InBase(256, v)
    ensures var r := Decode(EncodeCheck(sum, v));
            r.Some? && |r.value| == |v| + 4 && r.value[..|v|] == v && r.value[|v|..] == sum(v)
  {
    DecodeEncode(v + sum(v), "", "");
    assert "" + EncodeCheck(sum, v) + "" == EncodeCheck(sum, v);
  }

  lemma DecodeEncodeCheck(sum: seq<nat> -> seq<nat>, v: seq<nat>, before: string, after: string)
    requires Checksum(sum) && InBase(256, v) && Blank(before) && Blank(after)
    ensures DecodeCheck(sum, before + EncodeCheck(sum, v) + after) == Some(v)
  {
    var w := v + sum(v);
    assert w[..|v|] == v && w[|v|..] == sum(v);
    DecodeEncode(w, before, after);
  }

  /** A checked string is accepted for exactly one content, whose encoding it is. */
  lemma CheckedIsPadded(sum: seq<nat> -> seq<nat>, s: string) returns (before: string, after: string)
    requires Checksum(sum) && DecodeCheck(sum, s).Some?
    ensures Blank(before) && Blank(after)
    ensures s == before + EncodeCheck(sum, DecodeCheck(sum, s).value) + after
  {
    before, after := DecodedIsPadded(s);
    var v := Decode(s).value;
    assert v == v[..|v| - 4] + v[|v| - 4..];
  }
}
