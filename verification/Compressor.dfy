/** Compact amounts, scripts and outputs. */
module Compressor {
  import opened Arithmetic
  import opened Wrappers
  import opened Coins
  import opened Primitives
  import opened Streams

  // ---------- amounts ----------

  function Tens(e: nat): (p: nat)
    ensures p > 0
  {
    if e == 0 then 1 else 10 * Tens(e - 1)
  }

  function Scale(m: nat, e: nat): nat { m * Tens(e) }

  /** Divide out powers of ten, up to a total exponent of nine. */
  function Shift(n: nat, e: nat): (nat, nat)
    requires e <= 9
    decreases 9 - e
  {
    if n % 10 == 0 && e < 9 then Shift(n / 10, e + 1) else (n, e)
  }

  function CompressAmount(n: nat): nat {
    if n == 0 then 0 else
      ShiftSplits(n, 0);
      var (m, e) := Shift(n, 0);
      if e < 9 then 1 + (m / 10 * 9 + m % 10 - 1) * 10 + e else 1 + (m - 1) * 10 + 9
  }

  function DecompressAmount(x: nat): nat {
    if x == 0 then 0 else
      var e, y := (x - 1) % 10, (x - 1) / 10;
      var m := if e < 9 then y / 9 * 10 + y % 9 + 1 else y + 1;
      Scale(m, e)
  }

  lemma TenTimes(a: nat, b: nat)
    ensures 10 * (a * b) == a * (10 * b) == a * 10 * b
  {
  }

  /** What is left after the shift has no further factor of ten, unless nine have been divided out. */
  lemma {:induction false} ShiftSplits(n: nat, e: nat)
    requires e <= 9 && n > 0
    ensures var r := Shift(n, e); e <= r.1 <= 9 && r.0 > 0 && n == r.0 * Tens(r.1 - e) && (r.1 < 9 ==> r.0 % 10 != 0)
    decreases 9 - e
  {
    if n % 10 == 0 && e < 9 {
      ShiftSplits(n / 10, e + 1);
      var r := Shift(n / 10, e + 1);
      TenTimes(r.0, Tens(r.1 - e - 1));
    }
  }

  lemma {:induction false} ShiftIs(m: nat, k: nat, e: nat)
    requires e + k <= 9 && m > 0 && (e + k < 9 ==> m % 10 != 0)
    ensures Shift(m * Tens(k), e) == (m, e + k)
    decreases k
  {
    if k > 0 {
      TenTimes(m, Tens(k - 1));
      ShiftIs(m, k - 1, e + 1);
    }
  }

  /** The code of m followed by e zeros. */
  function Code(m: nat, e: nat): nat
    requires m > 0 && e <= 9 && (e < 9 ==> m % 10 != 0)
  {
    if e < 9 then 1 + (m / 10 * 9 + m % 10 - 1) * 10 + e else 1 + (m - 1) * 10 + 9
  }

  lemma CompressIsCode(m: nat, e: nat)
    requires m > 0 && e <= 9 && (e < 9 ==> m % 10 != 0)
    ensures m * Tens(e) > 0 && CompressAmount(m * Tens(e)) == Code(m, e)
  {
    MulGrows(1, m, 1, Tens(e));
    ShiftIs(m, e, 0);
  }

  lemma DecompressCode(m: nat, e: nat)
    requires m > 0 && e <= 9 && (e < 9 ==> m % 10 != 0)
    ensures DecompressAmount(Code(m, e)) == Scale(m, e)
  {
    hide Scale;
    if e < 9 {
      DecompressParts(m / 10, m % 10, e);
    } else {
      DivMod(10, m - 1, 9);
      assert Code(m, e) - 1 == (m - 1) * 10 + 9;
    }
  }

  lemma DecompressParts(q: nat, d: nat, e: nat)
    requires 1 <= d <= 9 && e < 9
    ensures DecompressAmount(1 + (q * 9 + d - 1) * 10 + e) == Scale(q * 10 + d, e)
  {
    hide Scale;
    var y := q * 9 + (d - 1);
    DivMod(9, q, d - 1);
    DivMod(10, y, e);
    assert 1 + (q * 9 + d - 1) * 10 + e - 1 == y * 10 + e;
  }

  lemma DecompressCompressed(n: nat)
    ensures DecompressAmount(CompressAmount(n)) == n
  {
    hide DecompressAmount, Tens;
    if n > 0 {
      ShiftSplits(n, 0);
      var (m, e) := Shift(n, 0);
      CompressIsCode(m, e);
      DecompressCode(m, e);
    } else {
      assert CompressAmount(0) == 0;
      DecompressZero();
    }
  }

  lemma DecompressZero()
    ensures DecompressAmount(0) == 0
  {
  }

  lemma CompressDecompressed(x: nat)
    ensures CompressAmount(DecompressAmount(x)) == x
  {
    hide CompressAmount, Tens;
    if x > 0 {
      var e, y := (x - 1) % 10, (x - 1) / 10;
      var m := if e < 9 then y / 9 * 10 + y % 9 + 1 else y + 1;
      assert e < 9 ==> m % 10 == y % 9 + 1 && m / 10 == y / 9;
      CompressIsCode(m, e);
    } else {
      CompressZero();
    }
  }

  lemma CompressZero()
    ensures CompressAmount(0) == 0
  {
  }

  lemma CodeOf(m: nat, e: nat, n: nat, x: nat)
    requires m > 0 && e <= 9 && (e < 9 ==> m % 10 != 0) && n == m * Tens(e) && x == Code(m, e)
    ensures CompressAmount(n) == x && DecompressAmount(x) == n
  {
    CompressIsCode(m, e);
    DecompressCode(m, e);
  }

  lemma TensAre()
    ensures Tens(0) == 1 && Tens(6) == 100_0000 && Tens(8) == 1_0000_0000 && Tens(9) == 10_0000_0000
  {
    assert Tens(2) == 100 && Tens(4) == 1_0000 && Tens(6) == 100_0000 && Tens(8) == 1_0000_0000;
  }

  /** The pairs of src/test/compress_tests.cpp, and the amounts of the examples in src/coins.h. */
  lemma AmountTable()
    ensures CompressAmount(0) == 0 && DecompressAmount(0) == 0
    ensures CompressAmount(1) == 1 && DecompressAmount(1) == 1
    ensures CompressAmount(100_0000) == 0x7 && DecompressAmount(0x7) == 100_0000
    ensures CompressAmount(COIN) == 0x9 && DecompressAmount(0x9) == COIN
    ensures CompressAmount(50 * COIN) == 0x32 && DecompressAmount(0x32) == 50 * COIN
    ensures CompressAmount(2100_0000 * COIN) == 0x1406f40 && DecompressAmount(0x1406f40) == 2100_0000 * COIN
    ensures CompressAmount(600 * COIN) == 600
    ensures CompressAmount(234925952) == 2114333561
    ensures CompressAmount(110397) == 993571
  {
    hide CompressAmount, DecompressAmount, Tens;
    TensAre();
    CompressZero();
    DecompressZero();
    CodeOf(1, 0, 1, 1);
    CodeOf(1, 6, 100_0000, 0x7);
    CodeOf(1, 8, COIN, 0x9);
    CodeOf(5, 9, 50 * COIN, 0x32);
    CodeOf(210_0000, 9, 2100_0000 * COIN, 0x1406f40);
    CodeOf(60, 9, 600 * COIN, 600);
    CodeOf(234925952, 0, 234925952, 2114333561);
    CodeOf(110397, 0, 110397, 993571);
  }

  /** An amount grows at most ninefold, so nothing overflows 64 bits as long as 9n fits. */
  lemma CompressedIsSmall(n: nat)
    ensures CompressAmount(n) <= 9 * n
  {
    if n > 0 {
      ShiftSplits(n, 0);
      var (m, e) := Shift(n, 0);
      TensGrow(e);
      MulGrows(m, m, if e == 0 then 1 else 10, Tens(e));
    }
  }

  lemma {:induction false} TensGrow(e: nat)
    ensures Tens(e) >= 9 * e + 1 && (e > 0 ==> Tens(e) >= 10)
    decreases e
  {
    if e > 0 {
      TensGrow(e - 1);
    }
  }

  method CompressAmountLoop(amount: nat) returns (x: nat)
    ensures x == CompressAmount(amount)
  {
    if amount == 0 {
      return 0;
    }
    ShiftSplits(amount, 0);
    var n, e := amount, 0;
    while n % 10 == 0 && e < 9
      invariant 0 <= e <= 9 && Shift(amount, 0) == Shift(n, e)
      decreases 9 - e
    {
      n, e := n / 10, e + 1;
    }
    if e < 9 {
      var d := n % 10;
      assert 1 <= d <= 9;
      n := n / 10;
      return 1 + (n * 9 + d - 1) * 10 + e;
    } else {
      return 1 + (n - 1) * 10 + 9;
    }
  }

  method DecompressAmountLoop(x0: nat) returns (n: nat)
    ensures n == DecompressAmount(x0)
  {
    if x0 == 0 {
      return 0;
    }
    var x := x0 - 1;
    var e := x % 10;
    x := x / 10;
    if e < 9 {
      var d := x % 9 + 1;
      x := x / 9;
      n := x * 10 + d;
    } else {
      n := x + 1;
    }
    n := AppendZeros(n, e);
  }

  /** The last loop: as many zeros as the exponent says. */
  method AppendZeros(m: nat, zeros: nat) returns (n: nat)
    ensures n == Scale(m, zeros)
  {
    hide Tens;
    n := m;
    var e := zeros;
    while e > 0
      invariant 0 <= e <= zeros && n * Tens(e) == m * Tens(zeros)
    {
      TensStep(e - 1);
      TenTimes(n, Tens(e - 1));
      n := n * 10;
      e := e - 1;
    }
    TensStep(0);
  }

  lemma TensStep(e: nat)
    ensures Tens(e + 1) == 10 * Tens(e) && Tens(0) == 1
  {
  }

  // ---------- scripts ----------

  const SPECIAL_SCRIPTS: nat := 6

  /** The two operations on public keys that are not modelled: full validation, and decompression of 33 bytes. */
  datatype Keys = Keys(valid: seq<Byte> -> bool, decompress: seq<Byte> -> Option<seq<Byte>>)

  /** The first byte of a compressed key, by the parity of the last byte of the full one. */
  function Parity(key: seq<Byte>): Byte
    requires |key| == 65
  {
    2 + key[64] % 2
  }

  /** Decompression gives 65 bytes beginning with 4, and gives back every valid full key from its compressed form. */
  ghost predicate Inverts(k: Keys) {
    && (forall c | k.decompress(c).Some? :: |k.decompress(c).value| == 65)
    && (forall key | |key| == 65 && key[0] == 4 && k.valid(key) :: k.decompress([Parity(key)] + key[1..33]) == Some(key))
  }

  const OP_DUP: Byte := 0x76
  const OP_EQUAL: Byte := 0x87
  const OP_EQUALVERIFY: Byte := 0x88
  const OP_HASH160: Byte := 0xa9
  const OP_CHECKSIG: Byte := 0xac

  predicate IsToKeyID(s: seq<Byte>) {
    |s| == 25 && s[0] == OP_DUP && s[1] == OP_HASH160 && s[2] == 20 && s[23] == OP_EQUALVERIFY && s[24] == OP_CHECKSIG
  }

  predicate IsToScriptID(s: seq<Byte>) {
    |s| == 23 && s[0] == OP_HASH160 && s[1] == 20 && s[22] == OP_EQUAL
  }

  predicate IsToShortKey(s: seq<Byte>) {
    |s| == 35 && s[0] == 33 && s[34] == OP_CHECKSIG && (s[1] == 2 || s[1] == 3)
  }

  predicate IsToFullKey(k: Keys, s: seq<Byte>) {
    |s| == 67 && s[0] == 65 && s[66] == OP_CHECKSIG && s[1] == 4 && k.valid(s[1..66])
  }

  function Compress(k: Keys, s: seq<Byte>): Option<seq<Byte>> {
    if IsToKeyID(s) then Some([0] + s[3..23])
    else if IsToScriptID(s) then Some([1] + s[2..22])
    else if IsToShortKey(s) then Some([s[1]] + s[2..34])
    else if IsToFullKey(k, s) then Some([4 + s[65] % 2] + s[2..34])
    else None
  }

  function SpecialSize(n: nat): nat {
    if n == 0 || n == 1 then 20 else if 2 <= n <= 5 then 32 else 0
  }

  function Decompress(k: Keys, n: nat, data: seq<Byte>): Option<seq<Byte>>
    requires |data| == SpecialSize(n)
  {
    if n == 0 then Some([OP_DUP, OP_HASH160, 20] + data + [OP_EQUALVERIFY, OP_CHECKSIG])
    else if n == 1 then Some([OP_HASH160, 20] + data + [OP_EQUAL])
    else if n == 2 || n == 3 then Some([33, n] + data + [OP_CHECKSIG])
    else if n == 4 || n == 5 then
      match k.decompress([n - 2] + data)
      case Some(key) => Some([65] + key + [OP_CHECKSIG])
      case None => None
    else None
  }

  function WriteScript(k: Keys, s: seq<Byte>): seq<Byte> {
    match Compress(k, s)
    case Some(c) => c
    case None => VarInt(|s| + SPECIAL_SCRIPTS) + s
  }

  /** A special form that does not decompress leaves the script as it was. */
  function ReadScript(k: Keys, was: seq<Byte>, bytes: seq<Byte>): Option<Parsed<seq<Byte>>> {
    match ReadVarInt(bytes)
    case None => None
    case Some(size) =>
      var n := if size.value < SPECIAL_SCRIPTS then SpecialSize(size.value) else size.value - SPECIAL_SCRIPTS;
      if |size.rest| < n then None
      else if size.value < SPECIAL_SCRIPTS then
        match Decompress(k, size.value, size.rest[..n])
        case Some(s) => Some(Parsed(s, size.rest[n..]))
        case None => Some(Parsed(was, size.rest[n..]))
      else Some(Parsed(size.rest[..n], size.rest[n..]))
  }

  lemma KeyIDExpands(k: Keys, s: seq<Byte>)
    requires IsToKeyID(s)
    ensures Decompress(k, 0, s[3..23]) == Some(s)
  {
    assert s == [OP_DUP, OP_HASH160, 20] + s[3..23] + [OP_EQUALVERIFY, OP_CHECKSIG];
  }

  lemma ScriptIDExpands(k: Keys, s: seq<Byte>)
    requires IsToScriptID(s)
    ensures Decompress(k, 1, s[2..22]) == Some(s)
  {
    assert s == [OP_HASH160, 20] + s[2..22] + [OP_EQUAL];
  }

  lemma ShortKeyExpands(k: Keys, s: seq<Byte>)
    requires IsToShortKey(s)
    ensures Decompress(k, s[1], s[2..34]) == Some(s)
  {
    assert s == [33, s[1]] + s[2..34] + [OP_CHECKSIG];
  }

  lemma SliceOfSlice(s: seq<Byte>, i: nat, j: nat, a: nat, b: nat)
    requires i <= j <= |s| && a <= b <= j - i
    ensures s[i..j][a..b] == s[i + a..i + b]
  {
    var t := s[i..j];
    forall k | 0 <= k < b - a ensures t[a..b][k] == s[i + a..i + b][k] {
      var q := a + k;
      assert t[a..b][k] == t[q] == s[i + q];
    }
  }

  lemma FullKeyExpands(k: Keys, s: seq<Byte>)
    requires Inverts(k) && IsToFullKey(k, s)
    ensures Decompress(k, 4 + s[65] % 2, s[2..34]) == Some(s)
  {
    var key := s[1..66];
    assert key[64] == s[65] && key[0] == 4 && |key| == 65;
    SliceOfSlice(s, 1, 66, 1, 33);
    assert k.decompress([Parity(key)] + key[1..33]) == Some(key);
    assert s == [65] + key + [OP_CHECKSIG];
  }

  /** Every special form names itself in its first byte and expands to the script it came from. */
  lemma CompressedExpands(k: Keys, s: seq<Byte>)
    requires Inverts(k) && Compress(k, s).Some?
    ensures var c := Compress(k, s).value;
            && c != [] && c[0] < SPECIAL_SCRIPTS && |c| == 1 + SpecialSize(c[0])
            && Decompress(k, c[0], c[1..]) == Some(s)
  {
    hide Decompress, Inverts;
    var c := Compress(k, s).value;
    if IsToKeyID(s) {
      KeyIDExpands(k, s);
      assert c[1..] == s[3..23];
    } else if IsToScriptID(s) {
      ScriptIDExpands(k, s);
      assert c[1..] == s[2..22];
    } else {
      assert c[1..] == s[2..34];
      if IsToShortKey(s) {
        ShortKeyExpands(k, s);
      } else {
        FullKeyExpands(k, s);
      }
    }
  }

  lemma ScriptReadsBack(k: Keys, s: seq<Byte>, was: seq<Byte>, rest: seq<Byte>)
    requires Inverts(k)
    ensures ReadScript(k, was, WriteScript(k, s) + rest) == Some(Parsed(s, rest))
  {
    hide Compress, Decompress, ReadVarInt, Inverts, SpecialSize;
    match Compress(k, s)
    case Some(c) =>
      CompressedExpands(k, s);
      ReadVarIntBack(c[0], c[1..] + rest);
      assert VarInt(c[0]) == [c[0]] by { SmallVarInt(c[0]); }
      assert c + rest == [c[0]] + (c[1..] + rest);
      assert (c[1..] + rest)[..|c| - 1] == c[1..] && (c[1..] + rest)[|c| - 1..] == rest;
    case None =>
      ReadVarIntBack(|s| + SPECIAL_SCRIPTS, s + rest);
      assert VarInt(|s| + SPECIAL_SCRIPTS) + s + rest == VarInt(|s| + SPECIAL_SCRIPTS) + (s + rest);
      assert (s + rest)[..|s|] == s && (s + rest)[|s|..] == rest;
  }

  lemma SmallVarInt(b: Byte)
    requires b < 128
    ensures VarInt(b) == [b]
  {
  }

  // Each kind of script and what is written of it, over all hashes and keys.

  /** Pay to a public key hash: 00 and the hash. */
  lemma ToKeyIDIsWritten(k: Keys, hash: seq<Byte>)
    requires |hash| == 20
    ensures WriteScript(k, [0x76, 0xa9, 0x14] + hash + [0x88, 0xac]) == [0x00] + hash
  {
    var s: seq<Byte> := [0x76, 0xa9, 0x14] + hash + [0x88, 0xac];
    assert s[3..23] == hash;
  }

  /** Pay to a script hash: 01 and the hash. */
  lemma ToScriptIDIsWritten(k: Keys, hash: seq<Byte>)
    requires |hash| == 20
    ensures WriteScript(k, [0xa9, 0x14] + hash + [0x87]) == [0x01] + hash
  {
    var s: seq<Byte> := [0xa9, 0x14] + hash + [0x87];
    assert s[2..22] == hash;
  }

  /** Pay to a compressed key: the key. */
  lemma ToShortKeyIsWritten(k: Keys, key: seq<Byte>)
    requires |key| == 33 && (key[0] == 2 || key[0] == 3)
    ensures WriteScript(k, [0x21] + key + [0xac]) == key
  {
    var s: seq<Byte> := [0x21] + key + [0xac];
    assert s[1] == key[0] && s[2..34] == key[1..] && [key[0]] + key[1..] == key;
  }

  /** Pay to a full key that is valid: 04 or 05, by the parity of its last byte, and its first half. */
  lemma ToFullKeyIsWritten(k: Keys, x: seq<Byte>, y: seq<Byte>)
    requires |x| == |y| == 32 && k.valid([4] + x + y)
    ensures WriteScript(k, [0x41, 4] + x + y + [0xac]) == [if y[31] % 2 == 0 then 4 else 5] + x
  {
    var s: seq<Byte> := [0x41, 4] + x + y + [0xac];
    assert s[1..66] == [4] + x + y && s[2..34] == x && s[65] == y[31];
  }

  /** What is of none of these kinds: its length and six, and the script as it is. */
  lemma OtherIsWritten(k: Keys, s: seq<Byte>)
    requires !(|s| == 25 && s[..3] == [0x76, 0xa9, 0x14] && s[23..] == [0x88, 0xac])
    requires !(|s| == 23 && s[..2] == [0xa9, 0x14] && s[22..] == [0x87])
    requires !(|s| == 35 && s[0] == 0x21 && s[1] in {2, 3} && s[34] == 0xac)
    requires !(|s| == 67 && s[..2] == [0x41, 4] && k.valid(s[1..66]) && s[66] == 0xac)
    ensures WriteScript(k, s) == VarInt(|s| + 6) + s
  {
    hide VarInt;
  }

  // ---------- outputs ----------

  function WriteOut(k: Keys, o: TxOut): seq<Byte>
    requires o.value >= 0
  {
    VarInt(CompressAmount(o.value)) + WriteScript(k, o.script)
  }

  function ReadOut(k: Keys, was: TxOut, bytes: seq<Byte>): Option<Parsed<TxOut>> {
    match ReadVarInt(bytes)
    case None => None
    case Some(amount) =>
      match ReadScript(k, was.script, amount.rest)
      case None => None
      case Some(s) => Some(Parsed(TxOut(DecompressAmount(amount.value), s.value), s.rest))
  }

  lemma OutReadsBack(k: Keys, o: TxOut, was: TxOut, rest: seq<Byte>)
    requires Inverts(k) && o.value >= 0
    ensures ReadOut(k, was, WriteOut(k, o) + rest) == Some(Parsed(o, rest))
  {
    var script := WriteScript(k, o.script);
    ReadVarIntBack(CompressAmount(o.value), script + rest);
    assert WriteOut(k, o) + rest == VarInt(CompressAmount(o.value)) + (script + rest);
    ScriptReadsBack(k, o.script, was.script, rest);
    DecompressCompressed(o.value);
  }

  // ---------- on a stream ----------

  method PutScript(k: Keys, s: DataStream, script: seq<Byte>)
    requires |script| + SPECIAL_SCRIPTS < Pow2(32)
    modifies s
    ensures s.bytes == old(s.bytes) + WriteScript(k, script)
  {
    hide Compress, VarInt, Pow2;
    var compr := Compress(k, script);
    if compr.Some? {
      s.PutAll(compr.value);
      return;
    }
    s.PutVarInt(|script| + SPECIAL_SCRIPTS, 32);
    s.PutAll(script);
  }

  /** The script is returned unchanged if a special form does not decompress; no value at all if the stream ends early. */
  method GetScript(k: Keys, s: DataStream, was: seq<Byte>) returns (script: Option<seq<Byte>>)
    modifies s
    ensures match ReadScript(k, was, old(s.bytes))
            case None => script.None?
            case Some(r) => script == Some(r.value) && s.bytes == r.rest
  {
    hide ReadVarInt, Decompress;
    var size := s.GetVarInt();
    if size.None? {
      return None;
    }
    if size.value < SPECIAL_SCRIPTS {
      var data := s.GetAll(SpecialSize(size.value));
      if data.None? {
        return None;
      }
      var plain := Decompress(k, size.value, data.value);
      return Some(if plain.Some? then plain.value else was);
    }
    script := s.GetAll(size.value - SPECIAL_SCRIPTS);
  }

  method PutOut(k: Keys, s: DataStream, o: TxOut)
    requires o.value >= 0 && 9 * o.value < Pow2(64) && |o.script| + SPECIAL_SCRIPTS < Pow2(32)
    modifies s
    ensures s.bytes == old(s.bytes) + WriteOut(k, o)
  {
    hide CompressAmount, WriteScript, Pow2;
    CompressedIsSmall(o.value);
    var x := CompressAmountLoop(o.value);
    s.PutVarInt(x, 64);
    PutScript(k, s, o.script);
    assert old(s.bytes) + VarInt(x) + WriteScript(k, o.script) == old(s.bytes) + (VarInt(x) + WriteScript(k, o.script));
  }

  method GetOut(k: Keys, s: DataStream, was: TxOut) returns (o: Option<TxOut>)
    modifies s
    ensures match ReadOut(k, was, old(s.bytes))
            case None => o.None?
            case Some(r) => o == Some(r.value) && s.bytes == r.rest
  {
    hide ReadVarInt, ReadScript, DecompressAmount;
    var x := s.GetVarInt();
    if x.None? {
      return None;
    }
    var value := DecompressAmountLoop(x.value);
    var script := GetScript(k, s, was.script);
    if script.None? {
      return None;
    }
    o := Some(TxOut(value, script.value));
  }
}
