/** The bytes of a coins record, field by field, and the documented examples byte for byte. */
module CoinsLayout {
  import opened Arithmetic
  import opened BitPacking
  import opened Wrappers
  import opened Coins
  import opened Primitives
  import opened Streams
  import opened Compressor
  import opened CoinsRecord

  // ---------- bits of a byte ----------

  const BIT_VALUES: seq<nat> := [1, 2, 4, 8, 16, 32, 64, 128]

  predicate BitOf(b: nat, k: nat)
    requires k < 8
  {
    b / BIT_VALUES[k] % 2 == 1
  }

  lemma BitIs(b: nat, k: nat)
    requires k < 8
    ensures BitAt(b, k) == BitOf(b, k)
  {
    PowersOfTwo();
  }

  // ---------- the parts, each given by what it means ----------

  predicate IsUnspentAt(c: Coins, i: nat) { i < |c.vout| && !c.vout[i].IsNull() }

  /** Bits 1 and 2 are the two kinds, 4 and 8 the first two outputs; the rest counts non-zero bytes of the bitmask. */
  predicate IsHeaderOf(c: Coins, code: nat, masks: seq<Byte>) {
    && (code % 2 == 1 <==> c.coinBase) && (code / 2 % 2 == 1 <==> c.coinStake)
    && (code / 4 % 2 == 1 <==> IsUnspentAt(c, 0)) && (code / 8 % 2 == 1 <==> IsUnspentAt(c, 1))
    && code / 16 == NonZeros(masks) - (if IsUnspentAt(c, 0) || IsUnspentAt(c, 1) then 0 else 1)
  }

  /** Bit p % 8 of byte p / 8 is the output p + 2; the last byte is not zero. */
  ghost predicate AreMasksOf(c: Coins, masks: seq<Byte>) {
    && (masks != [] ==> masks[|masks| - 1] != 0)
    && forall p: nat :: IsUnspentAt(c, 2 + p) <==> p / 8 < |masks| && BitOf(masks[p / 8], p % 8)
  }

  /** One part for every unspent output, in their order: the compact amount, then the script. */
  ghost predicate AreOutputsOf(k: Keys, vout: seq<TxOut>, at: seq<nat>, parts: seq<seq<Byte>>) {
    && |at| == |parts|
    && (forall i, j | 0 <= i < j < |at| :: at[i] < at[j])
    && (forall i: nat :: i in at <==> i < |vout| && !vout[i].IsNull())
    && forall i | 0 <= i < |at| :: at[i] < |vout| && vout[at[i]].value >= 0
                                   && parts[i] == VarInt(CompressAmount(vout[at[i]].value)) + WriteScript(k, vout[at[i]].script)
  }

  function Concat(parts: seq<seq<Byte>>): seq<Byte> {
    if parts == [] then [] else Concat(parts[..|parts| - 1]) + parts[|parts| - 1]
  }

  // ---------- what is written ----------

  lemma {:induction false} OutputsWritten(k: Keys, vout: seq<TxOut>) returns (at: seq<nat>, parts: seq<seq<Byte>>)
    requires Writable(vout)
    ensures AreOutputsOf(k, vout, at, parts) && Concat(parts) == WriteOuts(k, vout)
    decreases |vout|
  {
    hide WriteOuts, WriteOut, AreOutputsOf, Concat;
    if vout == [] {
      at, parts := [], [];
      NoneOf(k, vout);
    } else {
      var n := |vout| - 1;
      at, parts := OutputsWritten(k, vout[..n]);
      assert vout == vout[..n] + [vout[n]];
      WriteOutsJoin(k, vout[..n], [vout[n]]);
      LastWritten(k, vout[n]);
      AreMore(k, vout, at, parts);
      if vout[n].IsNull() {
        assert WriteOuts(k, vout) == WriteOuts(k, vout[..n]);
      } else {
        ConcatStep(parts, WriteOut(k, vout[n]));
        at, parts := at + [n], parts + [WriteOut(k, vout[n])];
      }
    }
  }

  lemma NoneOf(k: Keys, vout: seq<TxOut>)
    requires vout == []
    ensures AreOutputsOf(k, vout, [], []) && Concat([]) == [] == WriteOuts(k, vout)
  {
  }

  lemma ConcatStep(parts: seq<seq<Byte>>, part: seq<Byte>)
    ensures Concat(parts + [part]) == Concat(parts) + part
  {
    assert (parts + [part])[..|parts|] == parts;
  }

  lemma LastWritten(k: Keys, o: TxOut)
    requires Writable([o])
    ensures !o.IsNull() ==> o.value >= 0
    ensures WriteOuts(k, [o]) == if o.IsNull() then [] else WriteOut(k, o)
  {
    assert [o][0] == o;
    hide WriteOut, WriteOuts;
    WriteOutsStep(k, [o]);
    NoOuts(k, [o][1..]);
  }

  lemma AreMore(k: Keys, vout: seq<TxOut>, at: seq<nat>, parts: seq<seq<Byte>>)
    requires vout != [] && Writable(vout) && AreOutputsOf(k, vout[..|vout| - 1], at, parts)
    ensures var n := |vout| - 1;
            if vout[n].IsNull() then AreOutputsOf(k, vout, at, parts)
            else AreOutputsOf(k, vout, at + [n], parts + [WriteOut(k, vout[n])])
  {
    hide VarInt, WriteScript, CompressAmount;
    var n := |vout| - 1;
    assert forall i | 0 <= i < |at| :: at[i] in at && vout[..n][at[i]] == vout[at[i]];
    assert forall i: nat | i < n :: vout[..n][i] == vout[i];
  }

  lemma MasksAre(c: Coins)
    ensures AreMasksOf(c, Masks(c.vout))
  {
    hide Masks, BitAt, BitOf;
    MasksEnd(c.vout);
    forall p: nat ensures IsUnspentAt(c, 2 + p) <==> p / 8 < |Masks(c.vout)| && BitOf(Masks(c.vout)[p / 8], p % 8) {
      MaskBit(c.vout, p);
      if p / 8 < |Masks(c.vout)| {
        BitIs(Masks(c.vout)[p / 8], p % 8);
      }
    }
  }

  lemma HeaderIs(c: Coins)
    requires !c.IsPruned()
    ensures IsHeaderOf(c, HeaderCode(c), Masks(c.vout))
  {
    hide Masks, NonZeros;
    HeaderReadsBack(c);
  }

  /** What a reader finds in turn: the version, the header code, the bitmask, the outputs, and the height at the end. */
  ghost predicate HasLayout(k: Keys, c: Coins, bytes: seq<Byte>, code: nat, masks: seq<Byte>, at: seq<nat>, parts: seq<seq<Byte>>) {
    && IsHeaderOf(c, code, masks) && AreMasksOf(c, masks) && AreOutputsOf(k, c.vout, at, parts)
    && ReadVarInt(bytes).Some? && var version := ReadVarInt(bytes).value;
    && version.value == c.version && ReadVarInt(version.rest).Some? && var header := ReadVarInt(version.rest).value;
    && header.value == code && |masks| + |Concat(parts)| <= |header.rest|
    && header.rest[..|masks|] == masks
    && var outputs := header.rest[|masks|..];
    && outputs[..|Concat(parts)|] == Concat(parts)
    && var height := ReadVarInt(outputs[|Concat(parts)|..]);
    && height.Some? && height.value.value == c.height && height.value.rest == []
  }

  /** Every record that is written has this layout. */
  lemma WrittenInOrder(k: Keys, c: Coins) returns (code: nat, masks: seq<Byte>, at: seq<nat>, parts: seq<seq<Byte>>)
    requires !c.IsPruned() && Writable(c.vout) && c.version >= 0 && c.height >= 0
    ensures HasLayout(k, c, Write(k, c), code, masks, at, parts)
  {
    hide Masks, HeaderCode, WriteOuts, VarInt, ReadVarInt, IsHeaderOf, AreMasksOf, AreOutputsOf, Concat;
    code, masks := HeaderCode(c), Masks(c.vout);
    at, parts := OutputsWritten(k, c.vout);
    HeaderIs(c);
    MasksAre(c);
    var outs, last := Concat(parts), VarInt(c.height);
    var rest := masks + (outs + last);
    assert Write(k, c) == VarInt(c.version) + (VarInt(code) + rest);
    ReadVarIntBack(c.version, VarInt(code) + rest);
    ReadVarIntBack(code, rest);
    ReadVarIntBack(c.height, []);
    assert last + [] == last;
    Slices(masks, outs, last);
  }

  lemma Slices(a: seq<Byte>, b: seq<Byte>, c: seq<Byte>)
    ensures var s := a + (b + c); s[..|a|] == a && s[|a|..] == b + c
    ensures (b + c)[..|b|] == b && (b + c)[|b|..] == c
  {
  }

  // ---------- the documented examples ----------

  function ToKeyID(hash: seq<Byte>): seq<Byte> { [0x76, 0xa9, 0x14] + hash + [0x88, 0xac] }

  const FIRST_HASH: seq<Byte> :=
    [0x81, 0x61, 0x15, 0x94, 0x4e, 0x07, 0x7f, 0xe7, 0xc8, 0x03, 0xcf, 0xa5, 0x7f, 0x29, 0xb3, 0x6b, 0xf8, 0x7c, 0x1d, 0x35]

  function NullOuts(n: nat): (r: seq<TxOut>)
    ensures |r| == n && Writable(r) && forall i | 0 <= i < n :: r[i] == NULL_OUT
  {
    seq(n, _ => NULL_OUT)
  }

  lemma AfterNulls(k: Keys, n: nat, o: TxOut)
    requires o.value >= 0
    ensures var vout := NullOuts(n) + [o]; Writable(vout) && WriteOuts(k, vout) == WriteOut(k, o)
  {
    hide WriteOut, WriteOuts;
    NullsWriteNothing(k, NullOuts(n));
    WriteOutsJoin(k, NullOuts(n), [o]);
    LastWritten(k, o);
  }

  const OUTS_1: seq<TxOut> := NullOuts(1) + [TxOut(600 * COIN, ToKeyID(FIRST_HASH))]

  const FIRST_EXAMPLE := Coins(false, false, OUTS_1, 203998, 1)

  lemma OutOfKeyID(k: Keys, value: nat, code: nat, hash: seq<Byte>)
    requires |hash| == 20 && CompressAmount(value) == code
    ensures WriteOut(k, TxOut(value, ToKeyID(hash))) == VarInt(code) + ([0x00] + hash)
  {
    hide WriteScript, VarInt, CompressAmount;
    ToKeyIDIsWritten(k, hash);
  }

  lemma FirstOuts(k: Keys)
    ensures Writable(OUTS_1) && WriteOuts(k, OUTS_1) == [0x83, 0x58, 0x00] + FIRST_HASH
  {
    hide WriteOuts, WriteOut, VarInt, ToKeyID, CompressAmount, NullOuts;
    AmountTable();
    FirstNumbers();
    OutOfKeyID(k, 600 * COIN, 600, FIRST_HASH);
    AfterNulls(k, 1, TxOut(600 * COIN, ToKeyID(FIRST_HASH)));
    assert VarInt(600) + ([0x00] + FIRST_HASH) == [0x83, 0x58, 0x00] + FIRST_HASH;
  }

  /** The first example of src/coins.h, with the header code 8 that goes with a factor of 16. */
  lemma FirstExample(k: Keys)
    ensures !FIRST_EXAMPLE.IsPruned() && Writable(FIRST_EXAMPLE.vout)
    ensures Write(k, FIRST_EXAMPLE) == [0x01, 0x08] + ([0x83, 0x58, 0x00] + FIRST_HASH) + [0x8b, 0xb8, 0x5e]
  {
    hide HeaderCode, WriteOuts, VarInt, Masks, NonZeros, ToKeyID;
    assert !OUTS_1[1].IsNull() && !Has(OUTS_1, 0) && Has(OUTS_1, 1);
    FirstOuts(k);
    NoMasks(OUTS_1);
    FirstNumbers();
    ExampleCodes(FIRST_EXAMPLE);
    assert [0x01] + [0x08] + [] == [0x01, 0x08];
  }

  lemma NoMasks(vout: seq<TxOut>)
    requires |vout| <= 2
    ensures Masks(vout) == [] && NonZeros(Masks(vout)) == 0
  {
  }

  lemma FirstNumbers()
    ensures VarInt(1) == [0x01] && VarInt(8) == [0x08] && VarInt(600) == [0x83, 0x58] && VarInt(203998) == [0x8b, 0xb8, 0x5e]
  {
    hide Groups;
    ShortVarInt(1);
    ShortVarInt(8);
    PairVarInt(600, 0x03, 0x58);
    PairVarInt(1592, 0x0b, 0x38);
    LongerVarInt(203998, 1592, 0x5e);
  }

  const HASH_AT_4: seq<Byte> :=
    [0x61, 0xb0, 0x1c, 0xaa, 0xb5, 0x0f, 0x1b, 0x8e, 0x9c, 0x50, 0xa5, 0x05, 0x7e, 0xb4, 0x3c, 0x2d, 0x95, 0x63, 0xa4, 0xee]

  const HASH_AT_16: seq<Byte> :=
    [0x8c, 0x98, 0x8f, 0x1a, 0x4a, 0x4d, 0xe2, 0x16, 0x1e, 0x0f, 0x50, 0xaa, 0xc7, 0xf1, 0x7e, 0x7f, 0x95, 0x55, 0xca, 0xa4]

  /** Of 17 outputs, those at 4 and 16 are unspent. */
  const OUTS_4_AND_16: seq<TxOut> :=
    NullOuts(4) + [TxOut(234925952, ToKeyID(HASH_AT_4))] + (NullOuts(11) + [TxOut(110397, ToKeyID(HASH_AT_16))])

  const SECOND_EXAMPLE := Coins(true, false, OUTS_4_AND_16, 120891, 1)

  lemma OctetsOf4And16()
    ensures var later := Later(OUTS_4_AND_16);
            && |later| == 15 && |Octet(later, 0)| == 8 && |Octet(later, 1)| == 7
            && (forall i | 0 <= i < 8 :: Octet(later, 0)[i] <==> i == 2) && (forall i | 0 <= i < 7 :: Octet(later, 1)[i] <==> i == 6)
  {
    hide Octet, ToKeyID;
    var vout, later := OUTS_4_AND_16, Later(OUTS_4_AND_16);
    assert |vout| == 17 && forall p | 0 <= p < 15 :: later[p] == !vout[2 + p].IsNull();
    assert forall p | 0 <= p < 15 :: later[p] <==> p == 2 || p == 14;
    OctetSize(later, 0);
    OctetSize(later, 1);
    forall i | 0 <= i < 8 ensures Octet(later, 0)[i] <==> i == 2 { OctetAt(later, 0, i); }
    forall i | 0 <= i < 7 ensures Octet(later, 1)[i] <==> i == 6 { OctetAt(later, 1, i); }
  }

  lemma MasksOf4And16()
    ensures Masks(OUTS_4_AND_16) == [0x04, 0x40] && NonZeros([0x04, 0x40]) == 2
  {
    hide Octet, ByteOf, Later;
    OctetsOf4And16();
    var later := Later(OUTS_4_AND_16);
    OnlyBit(Octet(later, 0), 2);
    OnlyBit(Octet(later, 1), 6);
    assert Pack(later) == [0x04, 0x40];
    assert [0x04, 0x40][..1] == [0x04];
  }

  lemma SecondNumbers()
    ensures VarInt(1) == [0x01] && VarInt(17) == [0x11] && VarInt(120891) == [0x86, 0xaf, 0x3b]
    ensures VarInt(2114333561) == [0x86, 0xef, 0x97, 0xd5, 0x79] && VarInt(993571) == [0xbb, 0xd1, 0x23]
  {
    hide Groups;
    ShortVarInt(1);
    ShortVarInt(17);
    PairVarInt(943, 0x06, 0x2f);
    LongerVarInt(120891, 943, 0x3b);
    PairVarInt(1007, 0x06, 0x6f);
    LongerVarInt(129047, 1007, 0x17);
    LongerVarInt(16518229, 129047, 0x55);
    LongerVarInt(2114333561, 16518229, 0x79);
    PairVarInt(7761, 0x3b, 0x51);
    LongerVarInt(993571, 7761, 0x23);
  }

  lemma SecondOuts(k: Keys)
    ensures Writable(OUTS_4_AND_16)
    ensures WriteOuts(k, OUTS_4_AND_16) == [0x86, 0xef, 0x97, 0xd5, 0x79, 0x00] + HASH_AT_4 + ([0xbb, 0xd1, 0x23, 0x00] + HASH_AT_16)
  {
    hide WriteOuts, WriteOut, VarInt, ToKeyID, CompressAmount, NullOuts;
    AmountTable();
    SecondNumbers();
    OutOfKeyID(k, 234925952, 2114333561, HASH_AT_4);
    OutOfKeyID(k, 110397, 993571, HASH_AT_16);
    var first, second := TxOut(234925952, ToKeyID(HASH_AT_4)), TxOut(110397, ToKeyID(HASH_AT_16));
    AfterNulls(k, 4, first);
    AfterNulls(k, 11, second);
    WriteOutsJoin(k, NullOuts(4) + [first], NullOuts(11) + [second]);
    assert VarInt(2114333561) + ([0x00] + HASH_AT_4) == [0x86, 0xef, 0x97, 0xd5, 0x79, 0x00] + HASH_AT_4;
    assert VarInt(993571) + ([0x00] + HASH_AT_16) == [0xbb, 0xd1, 0x23, 0x00] + HASH_AT_16;
  }

  /** The second example of src/coins.h, with the header code 17. */
  lemma SecondExample(k: Keys)
    ensures !SECOND_EXAMPLE.IsPruned() && Writable(SECOND_EXAMPLE.vout)
    ensures Write(k, SECOND_EXAMPLE) ==
            [0x01, 0x11, 0x04, 0x40]
            + ([0x86, 0xef, 0x97, 0xd5, 0x79, 0x00] + HASH_AT_4 + ([0xbb, 0xd1, 0x23, 0x00] + HASH_AT_16))
            + [0x86, 0xaf, 0x3b]
  {
    hide HeaderCode, WriteOuts, VarInt, Masks, NonZeros;
    assert !OUTS_4_AND_16[4].IsNull() && !Has(OUTS_4_AND_16, 0) && !Has(OUTS_4_AND_16, 1);
    SecondOuts(k);
    MasksOf4And16();
    SecondNumbers();
    ExampleCodes(SECOND_EXAMPLE);
    assert [0x01] + [0x11] + [0x04, 0x40] == [0x01, 0x11, 0x04, 0x40];
  }
}
