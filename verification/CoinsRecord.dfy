/** The serialized form of a coins record: a header code, a bitmask of unspent outputs, and those outputs. */
module CoinsRecord {
  import opened Arithmetic
  import opened BitPacking
  import opened Wrappers
  import opened Coins
  import opened Primitives
  import opened Streams
  import opened Compressor

  // ---------- the bitmask ----------

  function Avail(vout: seq<TxOut>): (r: seq<bool>)
    ensures |r| == |vout|
  {
    seq(|vout|, i requires 0 <= i < |vout| => !vout[i].IsNull())
  }

  /** The first two outputs have their own flags. */
  predicate Has(vout: seq<TxOut>, i: nat) { i < |vout| && !vout[i].IsNull() }

  function Later(vout: seq<TxOut>): seq<bool> {
    if |vout| <= 2 then [] else Avail(vout)[2..]
  }

  /** One past the last non-zero byte. */
  function Used(bytes: seq<nat>): (n: nat)
    ensures n <= |bytes| && (n > 0 ==> bytes[n - 1] != 0) && forall i | n <= i < |bytes| :: bytes[i] == 0
  {
    if bytes == [] then 0 else if bytes[|bytes| - 1] != 0 then |bytes| else Used(bytes[..|bytes| - 1])
  }

  function NonZeros(bytes: seq<nat>): nat {
    if bytes == [] then 0 else NonZeros(bytes[..|bytes| - 1]) + if bytes[|bytes| - 1] != 0 then 1 else 0
  }

  function Masks(vout: seq<TxOut>): seq<Byte> {
    var bytes := Pack(Later(vout));
    bytes[..Used(bytes)]
  }

  /** As many bytes as it takes to see n that are not zero. */
  function ReadMasks(n: nat, s: seq<Byte>): Option<Parsed<seq<Byte>>>
    decreases |s|
  {
    if n == 0 then Some(Parsed([], s))
    else if s == [] then None
    else
      match ReadMasks(if s[0] != 0 then n - 1 else n, s[1..])
      case None => None
      case Some(r) => Some(Parsed([s[0]] + r.value, r.rest))
  }

  lemma {:induction false} NonZerosFromFront(bytes: seq<nat>)
    requires bytes != []
    ensures NonZeros(bytes) == NonZeros(bytes[1..]) + if bytes[0] != 0 then 1 else 0
    decreases |bytes|
  {
    var n := |bytes| - 1;
    if n > 0 {
      NonZerosFromFront(bytes[..n]);
      assert bytes[..n][1..] == bytes[1..][..n - 1];
    } else {
      assert bytes[1..] == [] && bytes[..0] == [];
    }
  }

  /** The count alone tells where the bitmask ends, because its last byte is not zero. */
  lemma {:induction false} MasksReadBack(masks: seq<Byte>, rest: seq<Byte>)
    requires masks == [] || masks[|masks| - 1] != 0
    ensures ReadMasks(NonZeros(masks), masks + rest) == Some(Parsed(masks, rest))
    ensures masks != [] ==> NonZeros(masks) > 0
    decreases |masks|
  {
    if masks == [] {
      assert masks + rest == rest;
    } else {
      assert (masks + rest)[1..] == masks[1..] + rest && (masks + rest)[0] == masks[0];
      NonZerosFromFront(masks);
      MasksReadBack(masks[1..], rest);
      assert [masks[0]] + masks[1..] == masks;
    }
  }

  lemma {:induction false} UsedKeepsCount(bytes: seq<nat>)
    ensures NonZeros(bytes[..Used(bytes)]) == NonZeros(bytes)
    decreases |bytes|
  {
    if bytes != [] && bytes[|bytes| - 1] == 0 {
      UsedKeepsCount(bytes[..|bytes| - 1]);
      assert bytes[..|bytes| - 1][..Used(bytes)] == bytes[..Used(bytes)];
    } else {
      assert bytes[..Used(bytes)] == bytes;
    }
  }

  /** The flags read back: two from the header, then those of the bitmask. */
  function Flags(first: bool, second: bool, masks: seq<Byte>): seq<bool> {
    [first, second] + Unpack(masks)
  }

  lemma PackedBit(vout: seq<TxOut>, p: nat)
    ensures var bytes := Pack(Later(vout));
            Has(vout, 2 + p) <==> p / 8 < |bytes| && BitAt(bytes[p / 8], p % 8)
  {
    var later := Later(vout);
    ByteOfBits(Octet(later, p / 8), p % 8);
    assert Has(vout, 2 + p) <==> p < |later| && later[p];
  }

  lemma NoBitOfZero(k: nat)
    ensures !BitAt(0, k)
  {
    DivAbove(0, Pow2(k), 0);
  }

  lemma MaskBit(vout: seq<TxOut>, p: nat)
    ensures var masks := Masks(vout);
            Has(vout, 2 + p) <==> p / 8 < |masks| && BitAt(masks[p / 8], p % 8)
  {
    PackedBit(vout, p);
    NoBitOfZero(p % 8);
    hide BitAt;
    assert Masks(vout) == Pack(Later(vout))[..Used(Pack(Later(vout)))];
  }

  lemma MasksEnd(vout: seq<TxOut>)
    ensures Masks(vout) == [] || Masks(vout)[|Masks(vout)| - 1] != 0
    ensures NonZeros(Masks(vout)) > 0 <==> Masks(vout) != []
  {
    var masks := Masks(vout);
    assert masks == [] || masks[|masks| - 1] != 0 by { hide BitAt, ByteOf; }
    hide Masks;
    MasksReadBack(masks, []);
  }

  lemma FlagAt(vout: seq<TxOut>, i: nat)
    requires i < 2 + 8 * |Masks(vout)|
    ensures Flags(Has(vout, 0), Has(vout, 1), Masks(vout))[i] == Has(vout, i)
  {
    hide BitAt, Masks, Has;
    if i >= 2 {
      MaskBit(vout, i - 2);
      assert Flags(Has(vout, 0), Has(vout, 1), Masks(vout))[i] == Unpack(Masks(vout))[i - 2];
    }
  }

  lemma PastFlags(vout: seq<TxOut>, i: nat)
    requires i >= 2 + 8 * |Masks(vout)|
    ensures !Has(vout, i)
  {
    hide Masks, BitAt, Has;
    MaskBit(vout, i - 2);
  }

  /** The flags say which of the outputs are unspent, and past them none is. */
  lemma FlagsAreAvail(vout: seq<TxOut>)
    ensures var n := 2 + 8 * |Masks(vout)|;
            && Flags(Has(vout, 0), Has(vout, 1), Masks(vout)) == Avail(Resize(vout, n))
            && forall i | n <= i < |vout| :: vout[i].IsNull()
  {
    hide Masks;
    var n := 2 + 8 * |Masks(vout)|;
    var flags, avail := Flags(Has(vout, 0), Has(vout, 1), Masks(vout)), Avail(Resize(vout, n));
    forall i | 0 <= i < n ensures flags[i] == avail[i] { FlagAt(vout, i); }
    forall i | n <= i < |vout| ensures vout[i].IsNull() { PastFlags(vout, i); }
  }

  // ---------- the outputs ----------

  /** Spent outputs are as SetNull leaves them; unspent ones have a proper amount. */
  predicate Writable(vout: seq<TxOut>) {
    Canonical(vout) && forall i | 0 <= i < |vout| && !vout[i].IsNull() :: vout[i].value >= 0
  }

  function WriteOuts(k: Keys, vout: seq<TxOut>): seq<Byte>
    requires Writable(vout)
  {
    if vout == [] then [] else (if vout[0].IsNull() then [] else WriteOut(k, vout[0])) + WriteOuts(k, vout[1..])
  }

  function ReadOuts(k: Keys, flags: seq<bool>, s: seq<Byte>): Option<Parsed<seq<TxOut>>> {
    if flags == [] then Some(Parsed([], s))
    else
      match (if flags[0] then ReadOut(k, NULL_OUT, s) else Some(Parsed(NULL_OUT, s)))
      case None => None
      case Some(o) =>
        match ReadOuts(k, flags[1..], o.rest)
        case None => None
        case Some(r) => Some(Parsed([o.value] + r.value, r.rest))
  }

  lemma ReadOutsStep(k: Keys, flags: seq<bool>, s: seq<Byte>, o: Parsed<TxOut>, r: Parsed<seq<TxOut>>)
    requires flags != []
    requires (if flags[0] then ReadOut(k, NULL_OUT, s) else Some(Parsed(NULL_OUT, s))) == Some(o)
    requires ReadOuts(k, flags[1..], o.rest) == Some(r)
    ensures ReadOuts(k, flags, s) == Some(Parsed([o.value] + r.value, r.rest))
  {
  }

  lemma WriteOutsStep(k: Keys, vout: seq<TxOut>)
    requires Writable(vout) && vout != []
    ensures Writable(vout[1..])
    ensures WriteOuts(k, vout) == (if vout[0].IsNull() then [] else WriteOut(k, vout[0])) + WriteOuts(k, vout[1..])
  {
  }

  lemma {:induction false} OutsReadBack(k: Keys, vout: seq<TxOut>, rest: seq<Byte>)
    requires Inverts(k) && Writable(vout)
    ensures ReadOuts(k, Avail(vout), WriteOuts(k, vout) + rest) == Some(Parsed(vout, rest))
    decreases |vout|
  {
    if vout == [] {
      assert WriteOuts(k, vout) + rest == rest;
    } else {
      FirstOutReadsBack(k, vout, rest);
    }
  }

  lemma {:induction false} FirstOutReadsBack(k: Keys, vout: seq<TxOut>, rest: seq<Byte>)
    requires Inverts(k) && Writable(vout) && vout != []
    ensures ReadOuts(k, Avail(vout), WriteOuts(k, vout) + rest) == Some(Parsed(vout, rest))
    decreases |vout|, 0
  {
    hide ReadOut, WriteOut, ReadOuts, WriteOuts, Inverts;
    WriteOutsStep(k, vout);
    OutsReadBack(k, vout[1..], rest);
    assert Avail(vout)[1..] == Avail(vout[1..]) && [vout[0]] + vout[1..] == vout;
    var more := WriteOuts(k, vout[1..]) + rest;
    if vout[0].IsNull() {
      assert WriteOuts(k, vout) + rest == more;
    } else {
      OutReadsBack(k, vout[0], NULL_OUT, more);
      assert WriteOuts(k, vout) + rest == WriteOut(k, vout[0]) + more;
    }
    ReadOutsStep(k, Avail(vout), WriteOuts(k, vout) + rest, Parsed(vout[0], more), Parsed(vout[1..], rest));
  }

  lemma {:induction false} WriteOutsJoin(k: Keys, a: seq<TxOut>, b: seq<TxOut>)
    requires Writable(a) && Writable(b)
    ensures Writable(a + b) && WriteOuts(k, a + b) == WriteOuts(k, a) + WriteOuts(k, b)
    decreases |a|
  {
    hide WriteOuts, WriteOut;
    if a == [] {
      assert a + b == b;
      NoOuts(k, a);
    } else {
      WriteOutsStep(k, a);
      WriteOutsJoin(k, a[1..], b);
      assert Writable(a + b) && a + b != [] && (a + b)[1..] == a[1..] + b;
      WriteOutsStep(k, a + b);
      var first := if a[0].IsNull() then [] else WriteOut(k, a[0]);
      assert first + (WriteOuts(k, a[1..]) + WriteOuts(k, b)) == first + WriteOuts(k, a[1..]) + WriteOuts(k, b);
    }
  }

  lemma NoOuts(k: Keys, vout: seq<TxOut>)
    requires vout == []
    ensures WriteOuts(k, vout) == []
  {
  }

  lemma {:induction false} NullsWriteNothing(k: Keys, vout: seq<TxOut>)
    requires Writable(vout) && forall i | 0 <= i < |vout| :: vout[i].IsNull()
    ensures WriteOuts(k, vout) == []
    decreases |vout|
  {
    if vout != [] {
      NullsWriteNothing(k, vout[1..]);
    }
  }

  /** Only spent outputs are dropped or added, so the same is written and the same is left after Cleanup. */
  lemma ResizeChangesNothing(k: Keys, vout: seq<TxOut>, n: nat)
    requires Writable(vout) && forall i | n <= i < |vout| :: vout[i].IsNull()
    ensures Writable(Resize(vout, n)) && WriteOuts(k, Resize(vout, n)) == WriteOuts(k, vout)
    ensures DropNullTail(Resize(vout, n)) == DropNullTail(vout)
  {
    var r := Resize(vout, n);
    var (short, long) := if n <= |vout| then (r, vout) else (vout, r);
    var tail := long[|short|..];
    assert long == short + tail;
    WriteOutsJoin(k, short, tail);
    NullsWriteNothing(k, tail);
    DropNullTailOf(short, tail);
  }

  lemma {:induction false} DropNullTailOf(vout: seq<TxOut>, tail: seq<TxOut>)
    requires forall i | 0 <= i < |tail| :: tail[i].IsNull()
    ensures DropNullTail(vout + tail) == DropNullTail(vout)
    decreases |tail|
  {
    if tail == [] {
      assert vout + tail == vout;
    } else {
      assert (vout + tail)[..|vout + tail| - 1] == vout + tail[..|tail| - 1];
      DropNullTailOf(vout, tail[..|tail| - 1]);
    }
  }

  // ---------- the record ----------

  function HeaderCode(c: Coins): nat
    requires !c.IsPruned()
  {
    var first, second := Has(c.vout, 0), Has(c.vout, 1);
    SomethingToCount(c);
    16 * (NonZeros(Masks(c.vout)) - if first || second then 0 else 1)
    + (if c.coinBase then 1 else 0) + (if c.coinStake then 2 else 0) + (if first then 4 else 0) + (if second then 8 else 0)
  }

  /** The assertion in Serialize: if neither of the first two outputs is unspent, some byte of the bitmask is not zero. */
  lemma SomethingToCount(c: Coins)
    requires !c.IsPruned()
    ensures Has(c.vout, 0) || Has(c.vout, 1) || NonZeros(Masks(c.vout)) > 0
  {
    hide Masks, NonZeros;
    var i :| 0 <= i < |c.vout| && !c.vout[i].IsNull();
    if i >= 2 {
      LaterCounts(c.vout, i - 2);
    }
  }

  lemma LaterCounts(vout: seq<TxOut>, p: nat)
    requires Has(vout, 2 + p)
    ensures NonZeros(Masks(vout)) > 0
  {
    hide Masks, BitAt, NonZeros, Has;
    MaskBit(vout, p);
    MasksEnd(vout);
  }

  function Write(k: Keys, c: Coins): seq<Byte>
    requires !c.IsPruned() && Writable(c.vout) && c.version >= 0 && c.height >= 0
  {
    VarInt(c.version) + VarInt(HeaderCode(c)) + Masks(c.vout) + WriteOuts(k, c.vout) + VarInt(c.height)
  }

  /** What the header code says: the two kinds, the first two flags, and how many non-zero bytes follow. */
  datatype Header = Header(coinBase: bool, coinStake: bool, first: bool, second: bool, masks: nat)

  function ReadHeader(code: nat): Header {
    var first, second := code / 4 % 2 == 1, code / 8 % 2 == 1;
    Header(code % 2 == 1, code / 2 % 2 == 1, first, second, code / 16 + if first || second then 0 else 1)
  }

  function ReadBody(k: Keys, version: nat, h: Header, s: seq<Byte>): Option<Parsed<Coins>> {
    match ReadMasks(h.masks, s)
    case None => None
    case Some(masks) =>
      match ReadOuts(k, Flags(h.first, h.second, masks.value), masks.rest)
      case None => None
      case Some(outs) =>
        match ReadVarInt(outs.rest)
        case None => None
        case Some(height) =>
          Some(Parsed(Coins(h.coinBase, h.coinStake, outs.value, height.value, version).Tidy(), height.rest))
  }

  function Read(k: Keys, s: seq<Byte>): Option<Parsed<Coins>> {
    match ReadVarInt(s)
    case None => None
    case Some(version) =>
      match ReadVarInt(version.rest)
      case None => None
      case Some(code) => ReadBody(k, version.value, ReadHeader(code.value), code.rest)
  }

  function Bit(b: bool): nat { if b then 1 else 0 }

  lemma HeaderBits(n: nat, b0: bool, b1: bool, b2: bool, b3: bool)
    ensures var code := 16 * n + Bit(b0) + 2 * Bit(b1) + 4 * Bit(b2) + 8 * Bit(b3);
            && code % 2 == Bit(b0) && code / 2 % 2 == Bit(b1) && code / 4 % 2 == Bit(b2) && code / 8 % 2 == Bit(b3) && code / 16 == n
  {
    var q8 := n * 2 + Bit(b3);
    var q4 := q8 * 2 + Bit(b2);
    var q2 := q4 * 2 + Bit(b1);
    DivMod(2, q2, Bit(b0));
    DivMod(2, q4, Bit(b1));
    DivMod(2, q8, Bit(b2));
    DivMod(2, n, Bit(b3));
    DivMod(4, q4, 2 * Bit(b1) + Bit(b0));
    DivMod(8, q8, 4 * Bit(b2) + 2 * Bit(b1) + Bit(b0));
    DivMod(16, n, 8 * Bit(b3) + 4 * Bit(b2) + 2 * Bit(b1) + Bit(b0));
  }

  lemma HeaderReadsBack(c: Coins)
    requires !c.IsPruned()
    ensures ReadHeader(HeaderCode(c)) == Header(c.coinBase, c.coinStake, Has(c.vout, 0), Has(c.vout, 1), NonZeros(Masks(c.vout)))
  {
    hide Masks, NonZeros, Has;
    SomethingToCount(c);
    var first, second := Has(c.vout, 0), Has(c.vout, 1);
    HeaderBits(NonZeros(Masks(c.vout)) - Bit(!(first || second)), c.coinBase, c.coinStake, first, second);
  }

  /**
   The two examples in the documentation scale their codes by 8. Here 4 and 9 say something else,
   and the records described get the codes 8 and 17.
   */
  lemma ExampleCodes(c: Coins)
    requires !c.IsPruned()
    ensures ReadHeader(4) == Header(false, false, true, false, 0) && ReadHeader(9) == Header(true, false, false, true, 0)
    ensures !c.coinBase && !c.coinStake && !Has(c.vout, 0) && Has(c.vout, 1) && NonZeros(Masks(c.vout)) == 0 ==> HeaderCode(c) == 8
    ensures c.coinBase && !c.coinStake && !Has(c.vout, 0) && !Has(c.vout, 1) && NonZeros(Masks(c.vout)) == 2 ==> HeaderCode(c) == 17
  {
    hide Masks, NonZeros, Has;
    SomethingToCount(c);
  }

  lemma ReadBodyStep(k: Keys, version: nat, h: Header, s: seq<Byte>, masks: Parsed<seq<Byte>>, outs: Parsed<seq<TxOut>>, height: Parsed<nat>)
    requires ReadMasks(h.masks, s) == Some(masks)
    requires ReadOuts(k, Flags(h.first, h.second, masks.value), masks.rest) == Some(outs)
    requires ReadVarInt(outs.rest) == Some(height)
    ensures ReadBody(k, version, h, s)
            == Some(Parsed(Coins(h.coinBase, h.coinStake, DropNullTail(outs.value), height.value, version), height.rest))
  {
  }

  lemma BodyReadsBack(k: Keys, c: Coins, rest: seq<Byte>)
    requires Inverts(k) && !c.IsPruned() && Writable(c.vout) && c.version >= 0 && c.height >= 0
    ensures var h := Header(c.coinBase, c.coinStake, Has(c.vout, 0), Has(c.vout, 1), NonZeros(Masks(c.vout)));
            ReadBody(k, c.version, h, Masks(c.vout) + (WriteOuts(k, c.vout) + (VarInt(c.height) + rest)))
            == Some(Parsed(c.Tidy(), rest))
  {
    hide Masks, NonZeros, Has, Flags, Avail, Resize, WriteOuts, ReadOuts, ReadMasks, ReadVarInt, VarInt, ReadBody, Writable, DropNullTail, Inverts;
    var masks := Masks(c.vout);
    var r := Resize(c.vout, 2 + 8 * |masks|);
    var last := VarInt(c.height) + rest;
    MasksEnd(c.vout);
    MasksReadBack(masks, WriteOuts(k, c.vout) + last);
    FlagsAreAvail(c.vout);
    ResizeChangesNothing(k, c.vout, |r|);
    OutsReadBack(k, r, last);
    ReadVarIntBack(c.height, rest);
    var h := Header(c.coinBase, c.coinStake, Has(c.vout, 0), Has(c.vout, 1), NonZeros(masks));
    ReadBodyStep(k, c.version, h, masks + (WriteOuts(k, c.vout) + last),
                 Parsed(masks, WriteOuts(k, c.vout) + last), Parsed(r, last), Parsed(c.height, rest));
  }

  /**
   Round trip: every record with an unspent output, canonical outputs and non-negative version and
   height reads back as itself after Cleanup, whatever follows it; so one that has been through
   Cleanup reads back as itself.
   */
  lemma RoundTrip(k: Keys, c: Coins, rest: seq<Byte>)
    requires Inverts(k) && !c.IsPruned() && Writable(c.vout) && c.version >= 0 && c.height >= 0
    ensures Read(k, Write(k, c) + rest) == Some(Parsed(c.Tidy(), rest))
    ensures c.IsTidy() ==> Read(k, Write(k, c) + rest) == Some(Parsed(c, rest))
  {
    hide ReadBody, Masks, WriteOuts, ReadVarInt, HeaderCode, ReadHeader;
    var body := Masks(c.vout) + (WriteOuts(k, c.vout) + (VarInt(c.height) + rest));
    assert Write(k, c) + rest == VarInt(c.version) + (VarInt(HeaderCode(c)) + body);
    ReadVarIntBack(c.version, VarInt(HeaderCode(c)) + body);
    ReadVarIntBack(HeaderCode(c), body);
    HeaderReadsBack(c);
    BodyReadsBack(k, c, rest);
  }
}
