/** A byte stream and the variable-length integers written to it. */
module Streams {
  import opened Arithmetic
  import opened Wrappers
  import opened Coins
  import opened Primitives

  datatype Parsed<T> = Parsed(value: T, rest: seq<Byte>)

  /** Base 128, most significant first; the high bit says that more follows, and all but the last are one less. */
  function Groups(n: nat, more: bool): (r: seq<Byte>)
    ensures r != []
  {
    var b: Byte := n % 128 + if more then 128 else 0;
    (if n <= 127 then [] else Groups(n / 128 - 1, true)) + [b]
  }

  function VarInt(n: nat): seq<Byte> { Groups(n, false) }

  function ReadFrom(acc: nat, s: seq<Byte>): Option<Parsed<nat>>
    decreases |s|
  {
    if s == [] then None else
      var m := acc * 128 + s[0] % 128;
      if s[0] >= 128 then ReadFrom(m + 1, s[1..]) else Some(Parsed(m, s[1..]))
  }

  function ReadVarInt(s: seq<Byte>): Option<Parsed<nat>> { ReadFrom(0, s) }

  lemma GroupsStep(n: nat, more: bool)
    ensures var b: Byte := n % 128 + if more then 128 else 0;
            Groups(n, more) == (if n <= 127 then [] else Groups(n / 128 - 1, true)) + [b]
  {
  }

  lemma ReadStep(acc: nat, s: seq<Byte>)
    requires s != []
    ensures var m := acc * 128 + s[0] % 128;
            ReadFrom(acc, s) == if s[0] >= 128 then ReadFrom(m + 1, s[1..]) else Some(Parsed(m, s[1..]))
  {
  }

  /** All groups but the last, read back; then the last, of either kind. */
  lemma {:induction false} ReadGroups(n: nat, more: bool, rest: seq<Byte>)
    ensures ReadFrom(0, Groups(n, more) + rest) == if more then ReadFrom(n + 1, rest) else Some(Parsed(n, rest))
    decreases n
  {
    hide Groups, ReadFrom;
    var b: Byte := n % 128 + if more then 128 else 0;
    var tail := [b] + rest;
    assert tail[1..] == rest && n == n / 128 * 128 + b % 128;
    GroupsStep(n, more);
    ReadStep(n / 128, tail);
    if n > 127 {
      ReadGroups(n / 128 - 1, true, tail);
      assert Groups(n, more) + rest == Groups(n / 128 - 1, true) + tail;
    } else {
      assert Groups(n, more) + rest == tail;
    }
  }

  /** Reading gives back what was written and leaves what follows. */
  lemma ReadVarIntBack(n: nat, rest: seq<Byte>)
    ensures ReadVarInt(VarInt(n) + rest) == Some(Parsed(n, rest))
  {
    ReadGroups(n, false, rest);
  }

  lemma ShortVarInt(n: nat)
    requires n < 128
    ensures Groups(n, false) == [n] && Groups(n, true) == [n + 128]
  {
  }

  lemma PairVarInt(n: nat, high: nat, low: Byte)
    requires high < 128 && low < 128 && n == (high + 1) * 128 + low
    ensures Groups(n, false) == [high + 128, low] && Groups(n, true) == [high + 128, low + 128]
  {
    hide Groups;
    DivMod(128, high + 1, low);
    GroupsStep(n, false);
    GroupsStep(n, true);
    ShortVarInt(high);
  }

  lemma LongerVarInt(n: nat, high: nat, low: Byte)
    requires low < 128 && n == (high + 1) * 128 + low
    ensures VarInt(n) == Groups(high, true) + [low] && Groups(n, true) == Groups(high, true) + [low + 128]
  {
    hide Groups;
    DivMod(128, high + 1, low);
    GroupsStep(n, false);
    GroupsStep(n, true);
  }

  /**
   The table of src/serialize.h. Two of its entries are of other numbers: 16511 has only two bytes,
   80 FF 7F being 32895, and 65535 is 82 FE 7F, 82 FD 7F being 65407.
   */
  lemma VarIntTable()
    ensures VarInt(0) == [0x00] && VarInt(1) == [0x01] && VarInt(127) == [0x7F]
    ensures VarInt(128) == [0x80, 0x00] && VarInt(255) == [0x80, 0x7F] && VarInt(256) == [0x81, 0x00]
    ensures VarInt(16383) == [0xFE, 0x7F] && VarInt(16384) == [0xFF, 0x00]
    ensures VarInt(16511) == [0xFF, 0x7F] && VarInt(32895) == [0x80, 0xFF, 0x7F]
    ensures VarInt(65535) == [0x82, 0xFE, 0x7F] && VarInt(65407) == [0x82, 0xFD, 0x7F]
    ensures VarInt(0x1_0000_0000) == [0x8E, 0xFE, 0xFE, 0xFF, 0x00]
  {
    hide Groups;
    ShortVarInt(0);
    ShortVarInt(1);
    ShortVarInt(127);
    PairVarInt(128, 0, 0x00);
    PairVarInt(255, 0, 0x7F);
    PairVarInt(256, 1, 0x00);
    PairVarInt(16383, 0x7E, 0x7F);
    PairVarInt(16384, 0x7F, 0x00);
    PairVarInt(16511, 0x7F, 0x7F);
    LongerVarInt(32895, 255, 0x7F);
    PairVarInt(510, 2, 0x7E);
    LongerVarInt(65535, 510, 0x7F);
    PairVarInt(509, 2, 0x7D);
    LongerVarInt(65407, 509, 0x7F);
    PairVarInt(2046, 0x0E, 0x7E);
    LongerVarInt(262142, 2046, 0x7E);
    LongerVarInt(33554431, 262142, 0x7F);
    LongerVarInt(0x1_0000_0000, 33554431, 0x00);
  }

  /** The sizes given there: one byte up to 127, two up to 16511, three up to 2113663. */
  lemma VarIntSizes(n: nat)
    ensures |VarInt(n)| == 1 <==> n <= 127
    ensures |VarInt(n)| <= 2 <==> n <= 16511
    ensures |VarInt(n)| <= 3 <==> n <= 2113663
  {
    hide Groups;
    SizeStep(n, false);
    if n > 127 {
      SizeStep(n / 128 - 1, true);
      if n / 128 - 1 > 127 {
        SizeStep((n / 128 - 1) / 128 - 1, true);
      }
    }
  }

  lemma SizeStep(n: nat, more: bool)
    ensures |Groups(n, more)| == if n <= 127 then 1 else |Groups(n / 128 - 1, true)| + 1
    ensures |Groups(n, more)| >= 1
  {
  }

  /** The number that bytes encode by the formula there: 128 to the i times each group counted from the end, one more but for the last. */
  function Encoded(s: seq<Byte>): nat
    requires s != []
  {
    s[|s| - 1] % 128 + Higher(s, 1)
  }

  function Higher(s: seq<Byte>, i: nat): nat
    requires 1 <= i <= |s|
    decreases |s| - i
  {
    if i == |s| then 0 else Pow(128, i) * (s[|s| - i - 1] % 128 + 1) + Higher(s, i + 1)
  }

  lemma {:induction false} HigherShifts(s: seq<Byte>, i: nat)
    requires |s| >= 2 && 1 <= i < |s|
    ensures Higher(s, i) == 128 * (if i == 1 then s[|s| - 2] % 128 + 1 + Higher(s[..|s| - 1], 1) else Higher(s[..|s| - 1], i - 1))
    decreases |s| - i
  {
    var t := s[..|s| - 1];
    assert Pow(128, i) == 128 * Pow(128, i - 1);
    MulThree(128, Pow(128, i - 1), s[|s| - i - 1] % 128 + 1);
    if i < |s| - 1 {
      HigherShifts(s, i + 1);
    }
    if i == 1 {
      assert Pow(128, 0) == 1;
    } else {
      assert t[|t| - (i - 1) - 1] == s[|s| - i - 1];
    }
  }

  /** All groups but the last have their high bit set, and the number is the one the formula gives. */
  lemma {:induction false} VarIntMeans(n: nat, more: bool)
    ensures Encoded(Groups(n, more)) == n
    ensures var s := Groups(n, more);
            (forall i | 0 <= i < |s| - 1 :: s[i] >= 128) && (s[|s| - 1] >= 128 <==> more)
    decreases n
  {
    hide Groups, Higher, Pow;
    var s := Groups(n, more);
    GroupsStep(n, more);
    if n > 127 {
      var high := Groups(n / 128 - 1, true);
      VarIntMeans(n / 128 - 1, true);
      assert s[..|s| - 1] == high;
      HigherShifts(s, 1);
    } else {
      HigherEnds(s);
    }
  }

  lemma HigherEnds(s: seq<Byte>)
    requires |s| == 1
    ensures Higher(s, 1) == 0
  {
  }

  /** What has been written once acc has been read with more to follow. */
  function Before(acc: nat): seq<Byte> { if acc > 0 then Groups(acc - 1, true) else [] }

  lemma BeforeStep(acc: nat, b: Byte)
    ensures var m := acc * 128 + b % 128;
            Before(acc) + [b] == if b >= 128 then Before(m + 1) else VarInt(m)
  {
    var m := acc * 128 + b % 128;
    assert m / 128 == acc && m % 128 == b % 128;
    hide Groups;
    GroupsStep(m, b >= 128);
  }

  /** Whatever completes a number completes its only encoding. */
  lemma {:induction false} ReadIsCanonical(acc: nat, s: seq<Byte>)
    requires ReadFrom(acc, s).Some?
    ensures var r := ReadFrom(acc, s).value; Before(acc) + s == VarInt(r.value) + r.rest
    decreases |s|
  {
    assert s != [];
    ReadStep(acc, s);
    hide Before, VarInt, ReadFrom;
    BeforeStep(acc, s[0]);
    assert Before(acc) + s == Before(acc) + [s[0]] + s[1..];
    if s[0] >= 128 {
      ReadIsCanonical(acc * 128 + s[0] % 128 + 1, s[1..]);
    }
  }

  /** Every number has exactly one encoding: what reads as n begins with the bytes written for n. */
  lemma OneEncoding(s: seq<Byte>)
    requires ReadVarInt(s).Some?
    ensures var r := ReadVarInt(s).value; s == VarInt(r.value) + r.rest
  {
    ReadIsCanonical(0, s);
    assert [] + s == s;
  }

  /** The temporary buffer of (width + 6) / 7 bytes is enough for an integer of that width. */
  lemma {:induction false} GroupsFit(n: nat, more: bool, width: nat)
    requires 0 < width && n < Pow2(width)
    ensures |Groups(n, more)| <= (width + 6) / 7
    decreases width
  {
    assert Pow2(7) == 128;
    if n > 127 {
      if width <= 7 {
        Pow2Grows(width, 7);
      } else {
        Pow2Splits(7, width);
        assert Pow2(width - 7) == 2 * Pow2(width - 8);
        assert n / 128 < Pow2(width - 7);
        GroupsFit(n / 128 - 1, true, width - 7);
      }
    }
  }

  function Reverse(s: seq<Byte>): (r: seq<Byte>)
    ensures |r| == |s|
  {
    if s == [] then [] else [s[|s| - 1]] + Reverse(s[..|s| - 1])
  }

  class DataStream {
    var bytes: seq<Byte>

    constructor (bytes: seq<Byte>)
      ensures this.bytes == bytes
    {
      this.bytes := bytes;
    }

    method Put(b: Byte)
      modifies this
      ensures bytes == old(bytes) + [b]
    {
      bytes := bytes + [b];
    }

    method PutAll(data: seq<Byte>)
      modifies this
      ensures bytes == old(bytes) + data
    {
      bytes := bytes + data;
    }

    /** The next byte, unless the stream has ended. */
    method Get() returns (b: Option<Byte>)
      modifies this
      ensures old(bytes) == [] ==> b.None? && bytes == []
      ensures old(bytes) != [] ==> b == Some(old(bytes)[0]) && bytes == old(bytes)[1..]
    {
      if bytes == [] {
        b := None;
      } else {
        b := Some(bytes[0]);
        bytes := bytes[1..];
      }
    }

    /** The next n bytes, unless there are fewer. */
    method GetAll(n: nat) returns (data: Option<seq<Byte>>)
      modifies this
      ensures n > |old(bytes)| ==> data.None?
      ensures n <= |old(bytes)| ==> data == Some(old(bytes)[..n]) && bytes == old(bytes)[n..]
    {
      if n > |bytes| {
        data := None;
      } else {
        data := Some(bytes[..n]);
        bytes := bytes[n..];
      }
    }

    /** The bytes are produced last first into a buffer sized for the width, then sent in reverse. */
    method PutVarInt(n: nat, width: nat)
      requires width > 0 && n < Pow2(width)
      modifies this
      ensures bytes == old(bytes) + VarInt(n)
    {
      hide Groups, Reverse, Pow2, Todo;
      var tmp := new Byte[(width + 6) / 7];
      GroupsFit(n, false, width);
      var left: nat, len: nat := n, 0;
      TodoFirst(n);
      tmp[0] := left % 128;
      assert tmp[..1] == [tmp[0]];
      while left > 127
        invariant len < tmp.Length && |Todo(left)| + len < tmp.Length
        invariant VarInt(n) == Todo(left) + Reverse(tmp[..len + 1])
        invariant bytes == old(bytes)
        decreases left
      {
        ghost var done := tmp[..len + 1];
        TodoStep(left, done);
        left := left / 128 - 1;
        len := len + 1;
        tmp[len] := left % 128 + 128;
        assert tmp[..len + 1] == done + [tmp[len]];
      }
      TodoLast(left);
      Flush(tmp, len + 1);
    }

    method Flush(tmp: array<Byte>, count: nat)
      requires count <= tmp.Length
      modifies this
      ensures bytes == old(bytes) + Reverse(tmp[..count])
    {
      var len := count;
      while len > 0
        invariant 0 <= len <= count
        invariant bytes + Reverse(tmp[..len]) == old(bytes) + Reverse(tmp[..count])
      {
        len := len - 1;
        assert tmp[..len + 1][..len] == tmp[..len];
        assert bytes + ([tmp[len]] + Reverse(tmp[..len])) == bytes + [tmp[len]] + Reverse(tmp[..len]);
        bytes := bytes + [tmp[len]];
      }
    }

    method GetVarInt() returns (n: Option<nat>)
      modifies this
      ensures match ReadVarInt(old(bytes))
              case None => n.None?
              case Some(r) => n == Some(r.value) && bytes == r.rest
    {
      var acc: nat := 0;
      while true
        invariant ReadVarInt(old(bytes)) == ReadFrom(acc, bytes)
        decreases |bytes|
      {
        var b := Get();
        if b.None? {
          return None;
        }
        acc := acc * 128 + b.value % 128;
        if b.value >= 128 {
          acc := acc + 1;
        } else {
          return Some(acc);
        }
      }
    }
  }

  /** The groups still to be produced once the one for n has been. */
  function Todo(n: nat): seq<Byte> { if n <= 127 then [] else Groups(n / 128 - 1, true) }

  lemma TodoFirst(n: nat)
    ensures var b: Byte := n % 128; VarInt(n) == Todo(n) + Reverse([b]) && |VarInt(n)| == |Todo(n)| + 1
  {
    GroupsStep(n, false);
  }

  lemma TodoLast(n: nat)
    requires n <= 127
    ensures Todo(n) == []
  {
  }

  lemma TodoStep(n: nat, done: seq<Byte>)
    requires n > 127
    ensures var m: nat := n / 128 - 1; var b: Byte := m % 128 + 128;
            Todo(n) + Reverse(done) == Todo(m) + Reverse(done + [b]) && |Todo(n)| == |Todo(m)| + 1
  {
    hide Groups, Reverse;
    var m: nat := n / 128 - 1;
    var b: Byte := m % 128 + 128;
    GroupsStep(m, true);
    ReverseStep(done, b);
    assert Todo(m) + [b] + Reverse(done) == Todo(m) + ([b] + Reverse(done));
  }

  lemma ReverseStep(s: seq<Byte>, b: Byte)
    ensures Reverse(s + [b]) == [b] + Reverse(s) && Reverse([]) == []
  {
    assert (s + [b])[..|s|] == s;
  }
}
