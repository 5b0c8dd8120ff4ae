/** EncodeBase58 and DecodeBase58: the buffers rewritten in place, and why no carry is left over. */
module Base58Codec {
  import opened Arithmetic
  import opened Wrappers
  import opened Base58

  lemma {:induction false} ValueCons(b: nat, d: nat, ds: seq<nat>)
    ensures Value(b, [d] + ds) == d * Pow(b, |ds|) + Value(b, ds)
    decreases |ds|
  {
    if ds == [] {
      assert [d] + ds == [] + [d];
      ValueStep(b, [], d);
    } else {
      ValueConsStep(b, d, ds[..|ds| - 1], ds[|ds| - 1]);
      assert ds[..|ds| - 1] + [ds[|ds| - 1]] == ds;
    }
  }

  lemma {:induction false} ValueConsStep(b: nat, d: nat, low: seq<nat>, last: nat)
    ensures Value(b, [d] + (low + [last])) == d * Pow(b, |low| + 1) + Value(b, low + [last])
    decreases |low| + 1, 0
  {
    hide Value, Pow;
    ValueCons(b, d, low);
    assert [d] + (low + [last]) == ([d] + low) + [last];
    ValueStep(b, [d] + low, last);
    ValueStep(b, low, last);
    PowStep(b, |low|);
    ConsCarries(d, Pow(b, |low|), Value(b, low), b, last);
  }

  lemma ConsCarries(d: nat, p: nat, v: nat, b: nat, z: nat)
    ensures (d * p + v) * b + z == d * (b * p) + (v * b + z)
  {
    assert (d * p + v) * b == (d * p) * b + v * b;
    assert (d * p) * b == d * (b * p);
  }

  /** One digit of the pass: what leaves the position as carry is worth the base times as much one place up. */
  lemma CarryOne(p: nat, base: nat, m: nat, c: nat, d: nat, carry: nat, sum: nat, was: nat, now: nat)
    requires base > 0 && sum == carry + m * d && was * m + c == now + carry * p
    ensures (d * p + was) * m + c == (sum % base) * p + now + (sum / base) * (base * p)
  {
    var q, r := sum / base, sum % base;
    assert sum == q * base + r;
    MulSum(carry, m * d, p);
    MulSum(q * base, r, p);
    MulSum(d * p, was, m);
    MulTurns(d, p, m);
    MulThree(q, base, p);
  }

  lemma MulTurns(d: nat, p: nat, m: nat)
    ensures d * p * m == m * d * p
  {
  }

  /** The same for the digits from a position on. */
  lemma PassStep(base: nat, m: nat, c: nat, d: nat, carry: nat, low: seq<nat>, low': seq<nat>)
    requires base > 0 && |low'| == |low| && Value(base, low) * m + c == Value(base, low') + carry * Pow(base, |low|)
    ensures var sum := carry + m * d;
            Value(base, [d] + low) * m + c == Value(base, [sum % base] + low') + sum / base * Pow(base, |low| + 1)
  {
    hide Value, Pow;
    var sum := carry + m * d;
    CarryOne(Pow(base, |low|), base, m, c, d, carry, sum, Value(base, low), Value(base, low'));
    ValueCons(base, d, low);
    ValueCons(base, sum % base, low');
    PowStep(base, |low|);
  }

  lemma StaysInBase(b: nat, ds: seq<nat>, i: nat, d: nat)
    requires InBase(b, ds) && i < |ds| && d < b
    ensures InBase(b, ds[i := d])
  {
  }

  /** What one position keeps and what it carries over. */
  method CarryOver(base: nat, sum: nat) returns (digit: nat, carry: nat)
    requires base > 0
    ensures digit == sum % base && carry == sum / base && digit < base
  {
    digit, carry := sum % base, sum / base;
  }

  /** One pass over the buffer, least significant digit first: multiply by m and add c. */
  method MulAdd(a: array<nat>, base: nat, m: nat, c: nat) returns (carry: nat)
    requires base > 0 && InBase(base, a[..])
    modifies a
    ensures InBase(base, a[..])
    ensures Value(base, old(a[..])) * m + c == Value(base, a[..]) + carry * Pow(base, a.Length)
  {
    hide Pow, Value, InBase;
    carry := c;
    var i := a.Length;
    assert a[i..] == [] && Value(base, []) == 0 && Pow(base, 0) == 1 by { Empty(base); }
    while i > 0
      invariant 0 <= i <= a.Length && InBase(base, a[..]) && a[..i] == old(a[..i])
      invariant Value(base, old(a[i..])) * m + c == Value(base, a[i..]) + carry * Pow(base, a.Length - i)
    {
      i := i - 1;
      ghost var was, d, low, low' := a[..], a[i], old(a[i + 1..]), a[i + 1..];
      PassStep(base, m, c, d, carry, low, low');
      var digit;
      digit, carry := CarryOver(base, carry + m * a[i]);
      StaysInBase(base, was, i, digit);
      a[i] := digit;
      assert a[..] == was[i := digit];
      assert old(a[i..]) == [d] + low && a[i..] == [digit] + low';
    }
    assert a[0..] == a[..] && old(a[0..]) == old(a[..]);
  }

  lemma Empty(b: nat)
    ensures Value(b, []) == 0 && Pow(b, 0) == 1
  {
  }

  lemma PowStep(b: nat, e: nat)
    ensures Pow(b, e + 1) == b * Pow(b, e)
  {
  }

  /** If the result fits the buffer, nothing is carried out of it. */
  lemma NothingCarried(total: nat, value: nat, carry: nat, room: nat)
    requires total == value + carry * room && total < room
    ensures carry == 0 && value == total
  {
    if carry > 0 {
      MulGrows(1, carry, room, room);
    }
  }

  lemma PrefixFits(b: nat, ds: seq<nat>, n: nat, room: nat)
    requires b > 0 && InBase(b, ds) && |ds| <= n && Pow(b, n) <= room
    ensures Value(b, ds) < room
  {
    ValueBounded(b, ds);
    PowGrows(b, |ds|, n);
  }

  /** One digit multiplied in; if the digits so far fit the buffer, the assertion on the carry holds. */
  method PushDigit(a: array<nat>, base: nat, m: nat, c: nat, ghost ds: seq<nat>, ghost n: nat)
    requires base > 0 && m > 0 && InBase(base, a[..]) && InBase(m, ds) && c < m
    requires Value(base, a[..]) == Value(m, ds) && |ds| < n && Pow(m, n) <= Pow(base, a.Length)
    modifies a
    ensures InBase(base, a[..]) && InBase(m, ds + [c]) && Value(base, a[..]) == Value(m, ds + [c])
  {
    hide Pow, Value;
    var carry := MulAdd(a, base, m, c);
    ValueStep(m, ds, c);
    PrefixFits(m, ds + [c], n, Pow(base, a.Length));
    NothingCarried(Value(m, ds + [c]), Value(base, a[..]), carry, Pow(base, a.Length));
    assert carry == 0;
  }

  /** Multiplying in the digits one by one leaves the buffer holding their value; no assertion on the carry fires. */
  method Accumulate(a: array<nat>, base: nat, m: nat, ds: seq<nat>)
    requires base > 0 && m > 0 && InBase(m, ds) && Pow(m, |ds|) <= Pow(base, a.Length)
    requires forall i | 0 <= i < a.Length :: a[i] == 0
    modifies a
    ensures InBase(base, a[..]) && Value(base, a[..]) == Value(m, ds)
  {
    hide Pow, Value;
    ZerosValue(base, a[..]);
    Empty(m);
    assert ds[..0] == [];
    for k := 0 to |ds|
      invariant InBase(base, a[..]) && Value(base, a[..]) == Value(m, ds[..k])
    {
      PushDigit(a, base, m, ds[k], ds[..k], |ds|);
      assert ds[..k + 1] == ds[..k] + [ds[k]];
    }
    assert ds[..|ds|] == ds;
  }

  method CountLeadingZeros(ds: seq<nat>) returns (z: nat)
    ensures z == LeadingZeros(ds)
  {
    z := 0;
    assert ds[0..] == ds;
    while z < |ds| && ds[z] == 0
      invariant z <= |ds| && LeadingZeros(ds) == z + LeadingZeros(ds[z..])
    {
      assert ds[z..][1..] == ds[z + 1..];
      z := z + 1;
    }
  }

  /** A '1' for every leading zero, then the symbols of the digits. */
  method Spell(zeroes: nat, ds: seq<nat>) returns (str: string)
    requires InBase(58, ds)
    ensures InBase(58, Zeros(zeroes) + ds) && str == Symbols(Zeros(zeroes) + ds)
  {
    ghost var all := Zeros(zeroes) + ds;
    assert forall k | 0 <= k < |ds| :: all[zeroes + k] == ds[k];
    AlphabetCode(0);
    str := seq(zeroes, _ => '1');
    var it := 0;
    while it < |ds|
      invariant 0 <= it <= |ds| && |str| == zeroes + it
      invariant str == Symbols(all)[..|str|]
    {
      AlphabetCode(ds[it]);
      assert Symbols(all)[zeroes + it] == ALPHABET[ds[it]];
      str := str + [ALPHABET[ds[it]]];
      it := it + 1;
    }
  }

  /** The digits of a buffer past its leading zeros are those of the value it holds. */
  lemma BufferDigits(a: nat, b: nat, v: seq<nat>, buffer: seq<nat>)
    requires b > 1 && InBase(b, buffer) && Value(b, buffer) == Value(a, v[LeadingZeros(v)..])
    ensures Convert(a, b, v) == Zeros(LeadingZeros(v)) + buffer[LeadingZeros(buffer)..]
  {
    ValueAfterZeros(a, v, LeadingZeros(v));
    ValueDigits(b, buffer);
  }

  method EncodeBase58(v: seq<nat>) returns (str: string)
    requires InBase(256, v)
    ensures str == Encode(v)
  {
    hide Value, Pow, Convert, Symbols;
    var zeroes := CountLeadingZeros(v);
    var rest := v[zeroes..];
    var b58 := new nat[|rest| * 138 / 100 + 1](_ => 0);
    EncodeFits(|rest|);
    Accumulate(b58, 58, 256, rest);
    BufferDigits(256, 58, v, b58[..]);
    var it := CountLeadingZeros(b58[..]);
    str := Spell(zeroes, b58[..][it..]);
  }

  method Find(c: char) returns (r: Option<nat>)
    ensures r == Search(c, 0)
  {
    AlphabetCode(0);
    var k := 0;
    while k < 58 && ALPHABET[k] != c
      invariant k <= 58 && Search(c, 0) == Search(c, k)
    {
      k := k + 1;
    }
    r := if k < 58 then Some(k) else None;
  }

  method SkipSpaces(s: string) returns (n: nat)
    ensures n == Spaces(s) && (n == |s| <==> Blank(s))
  {
    n := 0;
    assert s[0..] == s;
    while n < |s| && IsSpace(s[n])
      invariant n <= |s| && Spaces(s) == n + Spaces(s[n..])
    {
      assert s[n..][1..] == s[n + 1..];
      n := n + 1;
    }
    assert s[..n] == s[..Spaces(s)];
    assert n == |s| ==> s[..n] == s;
  }

  lemma NonSpacesIs(t: string, k: nat)
    requires k <= |t| && (forall i | 0 <= i < k :: !IsSpace(t[i])) && (k < |t| ==> IsSpace(t[k]))
    ensures NonSpaces(t) == k
  {
  }

  lemma OnesAreZeros(word: string, z: nat)
    requires Word(word) && z <= |word| && (forall i | 0 <= i < z :: word[i] == '1') && (z < |word| ==> word[z] != '1')
    ensures LeadingZeros(Indices(word)) == z
  {
    AlphabetCode(0);
    SearchFinds(0);
    var ds := Indices(word);
    assert forall i | 0 <= i < z :: ds[i] == 0;
    assert z < |word| ==> ds[z] != 0;
  }

  lemma BadSymbol(t: string, k: nat)
    requires k < |t| && (forall i | 0 <= i < k :: !IsSpace(t[i])) && !IsSpace(t[k]) && !IsSymbol(t[k])
    ensures !Word(t[..NonSpaces(t)])
  {
    hide IsSymbol, IsSpace, NonSpaces;
    PastNonSpaces(t, k);
    var word := t[..NonSpaces(t)];
    assert word[k] == t[k];
  }

  lemma PastNonSpaces(t: string, k: nat)
    requires k < |t| && forall i | 0 <= i <= k :: !IsSpace(t[i])
    ensures NonSpaces(t) > k
  {
  }

  /** The first k characters are symbols, and these are what they stand for after the leading ones. */
  ghost predicate ReadUpTo(t: string, zeroes: nat, k: nat, ds: seq<nat>) {
    && zeroes <= k <= |t| && |ds| == k - zeroes && InBase(58, ds)
    && (forall i | 0 <= i < k :: IsSymbol(t[i]) && !IsSpace(t[i]))
    && (forall i | 0 <= i < |ds| :: Search(t[zeroes + i], 0) == Some(ds[i]))
  }

  lemma ReadStart(t: string, zeroes: nat)
    requires zeroes <= |t| && forall i | 0 <= i < zeroes :: t[i] == '1'
    ensures ReadUpTo(t, zeroes, zeroes, [])
  {
    OnesAreSymbols(t, zeroes);
  }

  lemma ReadOneMore(t: string, zeroes: nat, k: nat, ds: seq<nat>, d: nat)
    requires ReadUpTo(t, zeroes, k, ds) && k < |t| && !IsSpace(t[k]) && Search(t[k], 0) == Some(d)
    ensures d < 58 && ReadUpTo(t, zeroes, k + 1, ds + [d])
  {
    hide Search, IsSpace;
  }

  lemma ReadStops(t: string, zeroes: nat, k: nat, ds: seq<nat>)
    requires ReadUpTo(t, zeroes, k, ds) && k < |t| && !IsSpace(t[k]) && Search(t[k], 0) == None
    ensures !Word(t[..NonSpaces(t)])
  {
    BadSymbol(t, k);
  }

  lemma ReadToEnd(t: string, zeroes: nat, k: nat, ds: seq<nat>)
    requires ReadUpTo(t, zeroes, k, ds) && (k < |t| ==> IsSpace(t[k]))
    ensures NonSpaces(t) == k && Word(t[..k]) && Indices(t[..k])[zeroes..] == ds
  {
    NonSpacesIs(t, k);
  }

  /** Multiply in the symbols up to the first white space; false if another character comes first. */
  method ReadWord(t: string, zeroes: nat, b256: array<nat>) returns (ok: bool, k: nat)
    requires zeroes <= |t| && (forall i | 0 <= i < zeroes :: t[i] == '1')
    requires Pow(58, |t| - zeroes) <= Pow(256, b256.Length) && forall i | 0 <= i < b256.Length :: b256[i] == 0
    modifies b256
    ensures ok <==> Word(t[..NonSpaces(t)])
    ensures ok ==> zeroes <= k == NonSpaces(t)
    ensures ok ==> InBase(256, b256[..]) && Value(256, b256[..]) == Value(58, Indices(t[..k])[zeroes..])
  {
    ReadStart(t, zeroes);
    ZerosValue(256, b256[..]);
    Empty(58);
    hide Pow, Value, ReadUpTo, NonSpaces, Search, IsSymbol, InBase, Indices;
    ok, k := true, zeroes;
    ghost var ds := [];
    assert InBase(58, ds) by { ReadIs(t, zeroes, k, ds); }
    while k < |t| && !IsSpace(t[k])
      invariant zeroes <= k <= |t| && |ds| == k - zeroes && ReadUpTo(t, zeroes, k, ds)
      invariant InBase(256, b256[..]) && InBase(58, ds) && Value(256, b256[..]) == Value(58, ds)
    {
      var ch := Find(t[k]);
      if ch.None? {
        ReadStops(t, zeroes, k, ds);
        return false, k;
      }
      ReadOneMore(t, zeroes, k, ds, ch.value);
      PushDigit(b256, 256, 58, ch.value, ds, |t| - zeroes);
      ds := ds + [ch.value];
      k := k + 1;
    }
    ReadToEnd(t, zeroes, k, ds);
  }

  lemma ReadIs(t: string, zeroes: nat, k: nat, ds: seq<nat>)
    requires ReadUpTo(t, zeroes, k, ds)
    ensures InBase(58, ds)
  {
  }

  lemma OnesAreSymbols(t: string, zeroes: nat)
    requires zeroes <= |t| && forall i | 0 <= i < zeroes :: t[i] == '1'
    ensures forall i | 0 <= i < zeroes :: IsSymbol(t[i]) && !IsSpace(t[i])
  {
    AlphabetCode(0);
    SearchFinds(0);
  }

  method CountOnes(t: string) returns (zeroes: nat)
    ensures zeroes <= |t| && (forall i | 0 <= i < zeroes :: t[i] == '1') && (zeroes < |t| ==> t[zeroes] != '1')
  {
    zeroes := 0;
    while zeroes < |t| && t[zeroes] == '1'
      invariant zeroes <= |t| && forall i | 0 <= i < zeroes :: t[i] == '1'
    {
      zeroes := zeroes + 1;
    }
  }

  lemma DecodeWord(s: string, t: string)
    requires t == s[Spaces(s)..]
    ensures var k := NonSpaces(t);
            Decode(s) == if Word(t[..k]) && Blank(t[k..]) then Some(Convert(58, 256, Indices(t[..k]))) else None
  {
  }

  /** The output vector is written only when the whole string is accepted. */
  method DecodeBase58(s: string, vch: seq<nat>) returns (ok: bool, out: seq<nat>)
    ensures ok <==> Decode(s).Some?
    ensures out == if ok then Decode(s).value else vch
  {
    hide Decode, Value, Pow, Convert, Spaces, NonSpaces, Word, Blank, Indices, InBase;
    out := vch;
    var lead := SkipSpaces(s);
    var t := s[lead..];
    DecodeWord(s, t);
    var zeroes := CountOnes(t);
    var b256 := new nat[(|t| - zeroes) * 733 / 1000 + 1](_ => 0);
    DecodeFits(|t| - zeroes);
    var k;
    ok, k := ReadWord(t, zeroes, b256);
    if !ok {
      return;
    }
    var trail := SkipSpaces(t[k..]);
    if trail != |t[k..]| {
      ok := false;
      return;
    }
    assert forall i | 0 <= i < zeroes :: t[..k][i] == t[i];
    OnesAreZeros(t[..k], zeroes);
    BufferDigits(58, 256, Indices(t[..k]), b256[..]);
    var it := CountLeadingZeros(b256[..]);
    out := Zeros(zeroes) + b256[..][it..];
  }

  method EncodeBase58Check(sum: seq<nat> -> seq<nat>, v: seq<nat>) returns (str: string)
    requires Checksum(sum) && InBase(256, v)
    ensures str == EncodeCheck(sum, v)
  {
    str := EncodeBase58(v + sum(v));
  }

  /** On failure the output vector is cleared, whatever decoding left in it. */
  method DecodeBase58Check(sum: seq<nat> -> seq<nat>, s: string, vch: seq<nat>) returns (ok: bool, out: seq<nat>)
    ensures ok <==> DecodeCheck(sum, s).Some?
    ensures out == if ok then DecodeCheck(sum, s).value else []
  {
    hide Decode;
    ok, out := DecodeBase58(s, vch);
    if !ok || |out| < 4 {
      return false, [];
    }
    var n := |out| - 4;
    if sum(out[..n]) != out[n..] {
      return false, [];
    }
    out := out[..n];
  }
}
