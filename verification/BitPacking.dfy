/** Flags packed eight to a byte, least significant bit first. */
module BitPacking {
  import opened Arithmetic
  import opened Primitives

  /** The value of bits, least significant first. */
  function ByteOf(bits: seq<bool>): (b: nat)
    ensures b < Pow2(|bits|)
  {
    if bits == [] then 0 else
      var n := |bits| - 1;
      ByteOf(bits[..n]) + if bits[n] then Pow2(n) else 0
  }

  predicate BitAt(b: nat, k: nat) { b / Pow2(k) % 2 == 1 }

  lemma TopBit(low: nat, n: nat, top: bool)
    requires low < Pow2(n)
    ensures BitAt(low + if top then Pow2(n) else 0, n) == top
  {
    hide Pow2;
    var a := low + if top then Pow2(n) else 0;
    DivAbove(a, Pow2(n), 0);
    DivAbove(a, Pow2(n), 1);
  }

  /** A higher bit does not disturb a lower one. */
  lemma BitBelow(low: nat, n: nat, k: nat)
    requires k < n
    ensures BitAt(low + Pow2(n), k) == BitAt(low, k)
  {
    hide Pow2;
    Pow2Splits(k, n);
    DivPlusEven(low, Pow2(k), Pow2(n - 1 - k));
  }

  lemma BitAbove(b: nat, n: nat, k: nat)
    requires b < Pow2(n) && n <= k
    ensures !BitAt(b, k)
  {
    hide Pow2;
    Pow2Grows(n, k);
    SmallQuotient(b, Pow2(k));
  }

  /** Every bit is where it was put, and there are none above. */
  lemma {:induction false} ByteOfBits(bits: seq<bool>, k: nat)
    ensures BitAt(ByteOf(bits), k) <==> k < |bits| && bits[k]
    decreases |bits|
  {
    hide Pow2, BitAt;
    if k >= |bits| {
      BitAbove(ByteOf(bits), |bits|, k);
    } else {
      var n := |bits| - 1;
      var low := ByteOf(bits[..n]);
      ByteOfBits(bits[..n], k);
      if k < n {
        BitBelow(low, n, k);
      } else {
        TopBit(low, n, bits[n]);
      }
    }
  }

  lemma {:induction false} NoFlags(bits: seq<bool>)
    requires true !in bits
    ensures ByteOf(bits) == 0
  {
    if bits != [] {
      NoFlags(bits[..|bits| - 1]);
    }
  }

  /** The first flag counts 1, and each after it twice as much as the one before. */
  lemma {:induction false} OnlyBit(bits: seq<bool>, k: nat)
    requires k < |bits| && forall i | 0 <= i < |bits| :: bits[i] <==> i == k
    ensures ByteOf(bits) == Pow2(k)
    ensures k < 8 ==> ByteOf(bits) == [1, 2, 4, 8, 16, 32, 64, 128][k]
    decreases |bits|
  {
    var n := |bits| - 1;
    if k < n {
      OnlyBit(bits[..n], k);
    } else {
      NoFlags(bits[..n]);
      PowersOfTwo();
    }
  }

  lemma PowersOfTwo()
    ensures Pow2(0) == 1 && Pow2(1) == 2 && Pow2(2) == 4 && Pow2(3) == 8 && Pow2(4) == 16
    ensures Pow2(5) == 32 && Pow2(6) == 64 && Pow2(7) == 128
  {
    assert Pow2(1) == 2 && Pow2(2) == 4 && Pow2(3) == 8 && Pow2(4) == 16;
  }

  /** The bits that go into one byte. */
  function Octet(bits: seq<bool>, q: nat): seq<bool> {
    bits[Min(8 * q, |bits|)..Min(8 * q + 8, |bits|)]
  }

  lemma OctetSize(bits: seq<bool>, q: nat)
    ensures |Octet(bits, q)| == if 8 * q + 8 <= |bits| then 8 else if 8 * q <= |bits| then |bits| - 8 * q else 0
  {
  }

  lemma OctetAt(bits: seq<bool>, q: nat, i: nat)
    requires i < |Octet(bits, q)|
    ensures 8 * q + i < |bits| && Octet(bits, q)[i] == bits[8 * q + i]
  {
  }

  lemma Pow2OfEight()
    ensures Pow2(8) == 256
  {
    assert Pow2(4) == 16;
  }

  lemma OctetIsByte(bits: seq<bool>, q: nat)
    ensures ByteOf(Octet(bits, q)) < 256
  {
    Pow2OfEight();
    hide Pow2, Octet;
    OctetSize(bits, q);
    Pow2Grows(|Octet(bits, q)|, 8);
  }

  function OctetByte(bits: seq<bool>, q: nat): Byte {
    OctetIsByte(bits, q);
    ByteOf(Octet(bits, q))
  }

  function Pack(bits: seq<bool>): (bytes: seq<Byte>)
    ensures |bytes| == (|bits| + 7) / 8
  {
    seq((|bits| + 7) / 8, (q: nat) => OctetByte(bits, q))
  }

  function Unpack(bytes: seq<Byte>): (bits: seq<bool>)
    ensures |bits| == 8 * |bytes|
  {
    seq(8 * |bytes|, p requires 0 <= p < 8 * |bytes| => BitAt(bytes[p / 8], p % 8))
  }

  /** Unpacking gives the bits back, followed by clear bits up to a whole byte. */
  lemma UnpackPack(bits: seq<bool>) returns (padding: seq<bool>)
    ensures Unpack(Pack(bits)) == bits + padding && true !in padding
    ensures (|bits| + 7) / 8 == (|bits| + |padding| + 7) / 8
  {
    var n := 8 * ((|bits| + 7) / 8);
    padding := seq(n - |bits|, _ => false);
    hide Octet, ByteOf, BitAt;
    forall p | 0 <= p < n ensures Unpack(Pack(bits))[p] == (bits + padding)[p] {
      var q, i := p / 8, p % 8;
      ByteOfBits(Octet(bits, q), i);
      OctetSize(bits, q);
      if i < |Octet(bits, q)| {
        OctetAt(bits, q, i);
      }
    }
  }

  lemma NoOctets()
    ensures forall q: nat :: ByteOf(Octet([], q)) == 0
  {
  }

  lemma OneBitMore(bits: seq<bool>, b: bool)
    ensures ByteOf(bits + [b]) == ByteOf(bits) + if b then Pow2(|bits|) else 0
  {
    assert (bits + [b])[..|bits|] == bits;
  }

  lemma OctetOfPrefix(bits: seq<bool>, p: nat, q: nat)
    requires p <= |bits|
    ensures Octet(bits[..p], q) == bits[Min(8 * q, p)..Min(8 * q + 8, p)]
  {
  }

  /** Only the byte that holds a bit has an octet that depends on it. */
  lemma OtherOctets(bits: seq<bool>, p: nat, q: nat)
    requires p < |bits| && q != p / 8
    ensures Octet(bits[..p + 1], q) == Octet(bits[..p], q)
  {
    OctetOfPrefix(bits, p, q);
    OctetOfPrefix(bits, p + 1, q);
    hide Octet;
  }

  lemma ItsOctet(bits: seq<bool>, p: nat)
    requires p < |bits|
    ensures |Octet(bits[..p], p / 8)| == p % 8 && Octet(bits[..p + 1], p / 8) == Octet(bits[..p], p / 8) + [bits[p]]
  {
    OctetOfPrefix(bits, p, p / 8);
    OctetOfPrefix(bits, p + 1, p / 8);
    hide Octet;
  }

  /** One more flag bit sets one bit, clear till then, of one byte. */
  lemma OctetGrows(bits: seq<bool>, p: nat)
    requires p < |bits|
    ensures !BitAt(ByteOf(Octet(bits[..p], p / 8)), p % 8)
    ensures ByteOf(Octet(bits[..p + 1], p / 8)) == ByteOf(Octet(bits[..p], p / 8)) + if bits[p] then Pow2(p % 8) else 0
    ensures forall q: nat | q != p / 8 :: Octet(bits[..p + 1], q) == Octet(bits[..p], q)
  {
    hide Pow2, BitAt, ByteOf, Octet;
    forall q: nat | q != p / 8 ensures Octet(bits[..p + 1], q) == Octet(bits[..p], q) {
      OtherOctets(bits, p, q);
    }
    ItsOctet(bits, p);
    ByteOfBits(Octet(bits[..p], p / 8), p % 8);
    OneBitMore(Octet(bits[..p], p / 8), bits[p]);
  }
}
