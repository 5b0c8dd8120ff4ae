/** CCoins: the record updated in place, written to a stream and read from one. */
module CoinsObject {
  import opened Arithmetic
  import opened BitPacking
  import opened Wrappers
  import opened Coins
  import opened Primitives
  import opened Streams
  import opened Compressor
  import opened CoinsRecord
  import opened CoinsUndo

  class CCoins {
    var fCoinBase: bool
    var fCoinStake: bool
    var vout: seq<TxOut>
    var nHeight: int
    var nVersion: int

    function Model(): Coins
      reads this
    {
      Coins(fCoinBase, fCoinStake, vout, nHeight, nVersion)
    }

    constructor ()
      ensures Model() == EMPTY_COINS
    {
      fCoinBase, fCoinStake, vout, nHeight, nVersion := false, false, [], 0, 0;
    }

    method Clear()
      modifies this
      ensures Model() == EMPTY_COINS
    {
      fCoinBase, fCoinStake, vout, nHeight, nVersion := false, false, [], 0, 0;
    }

    method Cleanup()
      modifies this
      ensures Model() == old(Model()).Tidy()
    {
      while |vout| > 0 && vout[|vout| - 1].IsNull()
        invariant DropNullTail(vout) == old(DropNullTail(vout))
        invariant Model() == old(Model()).(vout := vout)
      {
        vout := vout[..|vout| - 1];
      }
    }

    method IsPruned() returns (pruned: bool)
      ensures pruned <==> Model().IsPruned()
      ensures Model() == old(Model())
    {
      for i := 0 to |vout|
        invariant forall j | 0 <= j < i :: vout[j].IsNull()
      {
        if !vout[i].IsNull() {
          return false;
        }
      }
      return true;
    }

    /** The size of the bitmask without its zero tail, and how many of its bytes are not zero. */
    method CalcMaskSize() returns (nBytes: nat, nNonzeroBytes: nat)
      ensures nBytes == |Masks(vout)| && nNonzeroBytes == NonZeros(Masks(vout))
      ensures Model() == old(Model())
    {
      hide Pack, Later;
      MaskLength(vout);
      ghost var bytes := Pack(Later(vout));
      nBytes, nNonzeroBytes := 0, 0;
      var b := 0;
      assert bytes[..0] == [];
      while 2 + b * 8 < |vout|
        invariant 0 <= b <= |bytes|
        invariant nBytes == Used(bytes[..b]) && nNonzeroBytes == NonZeros(bytes[..b])
        decreases |bytes| - b
      {
        var fZero := IsZeroByte(b);
        ByteIsZero(vout, b);
        assert bytes[..b + 1][..b] == bytes[..b];
        if !fZero {
          nBytes := b + 1;
          nNonzeroBytes := nNonzeroBytes + 1;
        }
        b := b + 1;
      }
      assert bytes[..b] == bytes;
      UsedKeepsCount(bytes);
    }

    method IsZeroByte(b: nat) returns (fZero: bool)
      ensures fZero <==> forall j | 2 + b * 8 <= j < 2 + b * 8 + 8 && j < |vout| :: vout[j].IsNull()
      ensures Model() == old(Model())
    {
      fZero := true;
      var i := 0;
      while i < 8 && 2 + b * 8 + i < |vout|
        invariant 0 <= i <= 8
        invariant fZero <==> forall j | 2 + b * 8 <= j < 2 + b * 8 + i && j < |vout| :: vout[j].IsNull()
      {
        if !vout[2 + b * 8 + i].IsNull() {
          fZero := false;
        }
        i := i + 1;
      }
    }

    /** Mark an output spent and say how to undo that; false if there is nothing to spend. */
    method Spend(n: nat) returns (undo: Option<Undo>)
      modifies this
      ensures undo.Some? <==> IsUnspent(old(Model()), n)
      ensures undo.Some? ==> Model() == Spent(old(Model()), n) && undo.value == UndoOf(old(Model()), n)
      ensures undo.None? ==> Model() == old(Model())
    {
      if n >= |vout| || vout[n].IsNull() {
        return None;
      }
      var u := Undo(vout[n], false, false, 0, 0);
      vout := vout[n := NULL_OUT];
      Cleanup();
      if |vout| == 0 {
        u := u.(height := nHeight, coinBase := fCoinBase, coinStake := fCoinStake, version := nVersion);
      }
      return Some(u);
    }

    /** What DisconnectBlock does to the record for one input. */
    method Restore(isMint: seq<Byte> -> bool, n: nat, u: Undo) returns (clean: bool)
      modifies this
      ensures var r := CoinsUndo.Restore(isMint, old(Model()), n, u); Model() == r.coins && clean == r.clean
    {
      var pruned := IsPruned();
      clean := true;
      if u.height != 0 {
        if !pruned {
          clean := false;
        }
        Clear();
        fCoinBase, nHeight, nVersion := u.coinBase, u.height, u.version;
      } else if pruned {
        clean := false;
      }
      if n < |vout| && !vout[n].IsNull() && !isMint(vout[n].script) {
        clean := false;
      }
      if |vout| < n + 1 {
        vout := Resize(vout, n + 1);
      }
      vout := vout[n := u.txout];
    }

    /** Only a record with an unspent output may be written; its integers fit the widths they are written with. */
    ghost predicate Serializable()
      reads this
    {
      && !Model().IsPruned() && Writable(vout)
      && 0 <= nVersion < Pow2(32) && 0 <= nHeight < Pow2(32) && HeaderCode(Model()) < Pow2(32)
      && forall i | 0 <= i < |vout| :: 9 * vout[i].value < Pow2(64) && |vout[i].script| + SPECIAL_SCRIPTS < Pow2(32)
    }

    method Serialize(k: Keys, s: DataStream)
      requires Serializable()
      modifies s
      ensures s.bytes == old(s.bytes) + Write(k, Model())
    {
      hide Masks, NonZeros, WriteOuts, VarInt, Pow2, Has, HeaderCode;
      var nMaskSize, nMaskCode := CalcMaskSize();
      var nCode := Header(nMaskCode);
      s.PutVarInt(nVersion, 32);
      s.PutVarInt(nCode, 32);
      PutMasks(s, nMaskSize);
      PutOuts(k, s);
      s.PutVarInt(nHeight, 32);
    }

    /** The header code; the assertion that it is not negative holds. */
    method Header(nMaskCode: nat) returns (nCode: nat)
      requires !Model().IsPruned() && nMaskCode == NonZeros(Masks(vout))
      ensures nCode == HeaderCode(Model()) && Model() == old(Model())
    {
      hide Masks, NonZeros;
      var fFirst := |vout| > 0 && !vout[0].IsNull();
      var fSecond := |vout| > 1 && !vout[1].IsNull();
      SomethingToCount(Model());
      assert fFirst || fSecond || nMaskCode > 0;
      nCode := 16 * (nMaskCode - if fFirst || fSecond then 0 else 1)
               + (if fCoinBase then 1 else 0) + (if fCoinStake then 2 else 0) + (if fFirst then 4 else 0) + (if fSecond then 8 else 0);
    }

    method PutMasks(s: DataStream, nMaskSize: nat)
      requires nMaskSize == |Masks(vout)|
      modifies s
      ensures s.bytes == old(s.bytes) + Masks(vout)
    {
      hide Pack, Later, Masks;
      MasksArePacked(vout);
      ghost var bytes := Pack(Later(vout));
      for b := 0 to nMaskSize
        invariant s.bytes == old(s.bytes) + bytes[..b]
      {
        var chAvail := MaskByte(b);
        s.Put(chAvail);
        assert bytes[..b + 1] == bytes[..b] + [bytes[b]];
      }
    }

    /** One byte of the bitmask, a bit set for every output of its eight that is unspent. */
    method MaskByte(b: nat) returns (chAvail: Byte)
      requires b < |Pack(Later(vout))|
      ensures chAvail == Pack(Later(vout))[b]
    {
      hide ByteOf, Pow2, Octet;
      ghost var octet := Octet(Later(vout), b);
      OctetSize(Later(vout), b);
      var ch: nat := 0;
      NoBits();
      assert octet[..0] == [];
      var i := 0;
      while i < 8 && 2 + b * 8 + i < |vout|
        invariant 0 <= i <= |octet| && ch == ByteOf(octet[..i])
      {
        assert octet[..i + 1] == octet[..i] + [octet[i]];
        OctetAt(Later(vout), b, i);
        OneBitMore(octet[..i], octet[i]);
        if !vout[2 + b * 8 + i].IsNull() {
          ch := ch + Pow2(i);
        }
        i := i + 1;
      }
      assert octet[..i] == octet;
      OctetIsByte(Later(vout), b);
      chAvail := ch;
    }

    method PutOuts(k: Keys, s: DataStream)
      requires Writable(vout)
      requires forall i | 0 <= i < |vout| :: 9 * vout[i].value < Pow2(64) && |vout[i].script| + SPECIAL_SCRIPTS < Pow2(32)
      modifies s
      ensures s.bytes == old(s.bytes) + WriteOuts(k, vout)
    {
      hide WriteOuts, WriteOut, Pow2;
      assert vout[0..] == vout;
      for i := 0 to |vout|
        invariant Writable(vout[i..]) && old(s.bytes) + WriteOuts(k, vout) == s.bytes + WriteOuts(k, vout[i..])
      {
        assert vout[i..][1..] == vout[i + 1..];
        WriteOutsStep(k, vout[i..]);
        if !vout[i].IsNull() {
          assert s.bytes + (WriteOut(k, vout[i]) + WriteOuts(k, vout[i + 1..])) == s.bytes + WriteOut(k, vout[i]) + WriteOuts(k, vout[i + 1..]);
          PutOut(k, s, vout[i]);
        } else {
          assert s.bytes + ([] + WriteOuts(k, vout[i + 1..])) == s.bytes + WriteOuts(k, vout[i + 1..]);
        }
      }
      NoOuts(k, vout[|vout|..]);
    }

    /** Reads whole bytes of flags until the given number of them was not zero; no value if the stream ends early. */
    method GetFlags(s: DataStream, first: bool, second: bool, masks: nat) returns (avail: Option<seq<bool>>)
      modifies s
      ensures match ReadMasks(masks, old(s.bytes))
              case None => avail.None?
              case Some(r) => avail == Some(Flags(first, second, r.value)) && s.bytes == r.rest
    {
      hide BitAt;
      var vAvail := [first, second];
      var nMaskCode := masks;
      ghost var done: seq<Byte> := [];
      assert vAvail == Flags(first, second, done);
      PrependNothing(ReadMasks(masks, s.bytes));
      while nMaskCode > 0
        invariant vAvail == Flags(first, second, done)
        invariant ReadMasks(masks, old(s.bytes)) == Prepend(done, ReadMasks(nMaskCode, s.bytes))
        decreases |s.bytes|
      {
        ghost var before := s.bytes;
        var b := s.Get();
        if b.None? {
          return None;
        }
        var chAvail := b.value;
        ghost var had := vAvail;
        for p := 0 to 8
          invariant vAvail == had + BitsOf(chAvail)[..p]
        {
          assert BitsOf(chAvail)[..p + 1] == BitsOf(chAvail)[..p] + [BitAt(chAvail, p)];
          vAvail := vAvail + [BitAt(chAvail, p)];
        }
        assert BitsOf(chAvail)[..8] == BitsOf(chAvail);
        OneMoreByte(first, second, done, chAvail);
        PrependStep(done, chAvail, nMaskCode, before);
        done := done + [chAvail];
        if chAvail != 0 {
          nMaskCode := nMaskCode - 1;
        }
      }
      assert Prepend(done, ReadMasks(0, s.bytes)) == Some(Parsed(done + [], s.bytes)) && done + [] == done;
      return Some(vAvail);
    }

    /** Reads the outputs that are flagged; the others are left as a new output is. */
    method GetOuts(k: Keys, s: DataStream, vAvail: seq<bool>) returns (ok: bool)
      modifies `vout, s
      ensures match ReadOuts(k, vAvail, old(s.bytes))
              case None => !ok
              case Some(r) => ok && vout == r.value && s.bytes == r.rest
    {
      hide ReadOut;
      vout := seq(|vAvail|, _ => NULL_OUT);
      assert vAvail[0..] == vAvail && vout[..0] == [];
      PrependNothing(ReadOuts(k, vAvail, s.bytes));
      for i := 0 to |vAvail|
        invariant |vout| == |vAvail| && forall j | i <= j < |vout| :: vout[j] == NULL_OUT
        invariant ReadOuts(k, vAvail, old(s.bytes)) == Prepend(vout[..i], ReadOuts(k, vAvail[i..], s.bytes))
      {
        ghost var before, had := s.bytes, vout;
        assert vAvail[i..][1..] == vAvail[i + 1..];
        if vAvail[i] {
          var o := GetOut(k, s, vout[i]);
          if o.None? {
            return false;
          }
          vout := vout[i := o.value];
        }
        assert vout[..i + 1] == had[..i] + [vout[i]];
        PrependOut(k, vAvail[i..], before, had[..i], Parsed(vout[i], s.bytes));
      }
      assert vAvail[|vAvail|..] == [] && vout[..|vAvail|] == vout && vout + [] == vout;
      return true;
    }

    method Unserialize(k: Keys, s: DataStream) returns (ok: bool)
      modifies this, s
      ensures match Read(k, old(s.bytes))
              case None => !ok
              case Some(r) => ok && Model() == r.value && s.bytes == r.rest
    {
      hide ReadVarInt, ReadMasks, ReadOuts, Flags;
      var version := s.GetVarInt();
      if version.None? {
        return false;
      }
      nVersion := version.value;
      var code := s.GetVarInt();
      if code.None? {
        return false;
      }
      ghost var h, body := ReadHeader(code.value), s.bytes;
      var nCode := code.value;
      fCoinBase, fCoinStake := nCode % 2 == 1, nCode / 2 % 2 == 1;
      var nMaskCode := nCode / 16 + if nCode / 4 % 2 == 1 || nCode / 8 % 2 == 1 then 0 else 1;
      var vAvail := GetFlags(s, nCode / 4 % 2 == 1, nCode / 8 % 2 == 1, nMaskCode);
      if vAvail.None? {
        return false;
      }
      ok := GetOuts(k, s, vAvail.value);
      if !ok {
        return false;
      }
      var height := s.GetVarInt();
      if height.None? {
        return false;
      }
      nHeight := height.value;
      Cleanup();
    }
  }

  /** What was read before, put in front of what is still to be read. */
  function Prepend<T>(done: seq<T>, r: Option<Parsed<seq<T>>>): Option<Parsed<seq<T>>> {
    match r
    case None => None
    case Some(p) => Some(Parsed(done + p.value, p.rest))
  }

  lemma PrependNothing<T>(r: Option<Parsed<seq<T>>>)
    ensures Prepend([], r) == r
  {
    if r.Some? {
      assert [] + r.value.value == r.value.value;
    }
  }

  lemma PrependStep(done: seq<Byte>, b: Byte, n: nat, s: seq<Byte>)
    requires n > 0 && s != [] && s[0] == b
    ensures Prepend(done, ReadMasks(n, s)) == Prepend(done + [b], ReadMasks(if b != 0 then n - 1 else n, s[1..]))
  {
    var r := ReadMasks(if b != 0 then n - 1 else n, s[1..]);
    if r.Some? {
      assert done + ([b] + r.value.value) == done + [b] + r.value.value;
    }
  }

  lemma PrependOut(k: Keys, flags: seq<bool>, s: seq<Byte>, done: seq<TxOut>, o: Parsed<TxOut>)
    requires flags != [] && (if flags[0] then ReadOut(k, NULL_OUT, s) else Some(Parsed(NULL_OUT, s))) == Some(o)
    ensures Prepend(done, ReadOuts(k, flags, s)) == Prepend(done + [o.value], ReadOuts(k, flags[1..], o.rest))
  {
    hide ReadOut;
    var r := ReadOuts(k, flags[1..], o.rest);
    if r.Some? {
      assert done + ([o.value] + r.value.value) == done + [o.value] + r.value.value;
    }
  }

  function BitsOf(b: Byte): (r: seq<bool>)
    ensures |r| == 8
  {
    seq(8, p requires 0 <= p < 8 => BitAt(b, p))
  }

  lemma OneMoreByte(first: bool, second: bool, done: seq<Byte>, b: Byte)
    ensures Flags(first, second, done + [b]) == Flags(first, second, done) + BitsOf(b)
  {
    hide BitAt;
    var n := |done|;
    forall p | 0 <= p < 8 * n + 8 ensures Unpack(done + [b])[p] == (Unpack(done) + BitsOf(b))[p] {
      if p >= 8 * n {
        assert p / 8 == n && p % 8 == p - 8 * n;
      }
    }
    assert Unpack(done + [b]) == Unpack(done) + BitsOf(b);
  }

  lemma MaskLength(vout: seq<TxOut>)
    ensures |Pack(Later(vout))| == if |vout| <= 2 then 0 else (|vout| + 5) / 8
  {
  }

  lemma MasksArePacked(vout: seq<TxOut>)
    ensures |Masks(vout)| <= |Pack(Later(vout))| && Masks(vout) == Pack(Later(vout))[..|Masks(vout)|]
  {
  }

  lemma NoBits()
    ensures ByteOf([]) == 0
  {
  }

  lemma {:induction false} NoBitSet(bits: seq<bool>)
    ensures ByteOf(bits) == 0 <==> true !in bits
    decreases |bits|
  {
    if bits != [] {
      NoBitSet(bits[..|bits| - 1]);
      assert bits == bits[..|bits| - 1] + [bits[|bits| - 1]];
    }
  }

  lemma ByteIsZero(vout: seq<TxOut>, b: nat)
    requires 2 + b * 8 < |vout|
    ensures b < |Pack(Later(vout))|
    ensures Pack(Later(vout))[b] == 0 <==> forall j | 2 + b * 8 <= j < 2 + b * 8 + 8 && j < |vout| :: vout[j].IsNull()
  {
    var octet := Octet(Later(vout), b);
    NoBitSet(octet);
    assert forall i | 0 <= i < |octet| :: octet[i] == !vout[2 + b * 8 + i].IsNull();
    if true in octet {
      var i :| 0 <= i < |octet| && octet[i];
      assert !vout[2 + b * 8 + i].IsNull();
    }
    forall j | 2 + b * 8 <= j < 2 + b * 8 + 8 && j < |vout| && !vout[j].IsNull() ensures true in octet {
      assert octet[j - 2 - b * 8];
    }
  }
}
