/** CPartialMerkleTree: the object that writes, reads and transmits a partial Merkle tree. */
module PartialMerkleTree {
  import opened Arithmetic
  import opened BitPacking
  import opened MerkleTree
  import opened Primitives

  class PartialMerkleTree {
    const hash: (Hash, Hash) -> Hash
    var nTransactions: nat
    var vBits: seq<bool>
    var vHash: seq<Hash>
    var fBad: bool

    function Data(): Stored
      reads this
    {
      Stored(vBits, vHash)
    }

    constructor (hash: (Hash, Hash) -> Hash, txids: seq<Hash>, marks: seq<bool>)
      requires |marks| == |txids| > 0
      ensures this.hash == hash && nTransactions == |txids| && !fBad
      ensures Data() == BuildAll(hash, txids, marks)
    {
      this.hash := hash;
      nTransactions, fBad := |txids|, false;
      vBits, vHash := [], [];
      new;
      var height := CalcHeight();
      TraverseAndBuild(height, 0, txids, marks);
    }

    method CalcHeight() returns (height: nat)
      requires nTransactions > 0
      ensures height == Height(nTransactions)
    {
      height := 0;
      while Width(nTransactions, height) > 1
        invariant Height(nTransactions) == HeightFrom(nTransactions, height)
        decreases nTransactions - Pow2(height)
      {
        WidthBoundsNodes(nTransactions, height, 1);
        height := height + 1;
      }
      WidthBoundsNodes(nTransactions, height, 0);
    }

    /** Whether any transaction under the node is marked. */
    method ParentOfMatch(height: nat, pos: nat, marks: seq<bool>) returns (hit: bool)
      requires |marks| == nTransactions && Node(nTransactions, height, pos)
      ensures hit <==> true in Under(marks, height, pos)
    {
      NodeSpan(nTransactions, height, pos);
      hit := false;
      var p := First(height, pos);
      while p < First(height, pos + 1) && p < nTransactions
        invariant First(height, pos) <= p <= Past(nTransactions, height, pos)
        invariant hit <==> true in marks[First(height, pos)..p]
      {
        assert marks[First(height, pos)..p + 1] == marks[First(height, pos)..p] + [marks[p]];
        hit := hit || marks[p];
        p := p + 1;
      }
    }

    method TraverseAndBuild(height: nat, pos: nat, txids: seq<Hash>, marks: seq<bool>)
      requires |marks| == |txids| == nTransactions && Node(nTransactions, height, pos)
      modifies `vBits, `vHash
      ensures Data() == Join(old(Data()), Build(hash, height, pos, txids, marks))
      decreases height
    {
      hide Node, Under, Width, CalcHash;
      var hit := ParentOfMatch(height, pos, marks);
      vBits := vBits + [hit];
      if height == 0 || !hit {
        vHash := vHash + [CalcHash(hash, height, pos, txids)];
      } else {
        BuildOfInner(hash, height, pos, txids, marks);
        BuildBelow(height, pos, txids, marks);
      }
    }

    method BuildBelow(height: nat, pos: nat, txids: seq<Hash>, marks: seq<bool>)
      requires height > 0 && |marks| == |txids| == nTransactions && Node(nTransactions, height - 1, 2 * pos)
      modifies `vBits, `vHash
      ensures var left := Build(hash, height - 1, 2 * pos, txids, marks);
              Data() == Join(old(Data()), if Node(nTransactions, height - 1, 2 * pos + 1) then
                                            Join(left, Build(hash, height - 1, 2 * pos + 1, txids, marks)) else left)
      decreases height, 0
    {
      hide Node, Build, Width;
      WidthBoundsNodes(nTransactions, height - 1, 2 * pos + 1);
      TraverseAndBuild(height - 1, 2 * pos, txids, marks);
      if 2 * pos + 1 < Width(nTransactions, height - 1) {
        TraverseAndBuild(height - 1, 2 * pos + 1, txids, marks);
      }
    }

    method TraverseAndExtract(height: nat, pos: nat, bit: nat, next: nat, found: seq<Hash>)
      returns (h: Hash, bit': nat, next': nat, found': seq<Hash>)
      modifies `fBad
      ensures var r := Extract(hash, nTransactions, height, pos, Data(), bit, next);
              h == r.hash && bit' == r.bit && next' == r.next && found' == found + r.found && fBad == (old(fBad) || r.bad)
      decreases height
    {
      hide Node, Width;
      bit', next', found' := bit, next, found;
      if bit' >= |vBits| {
        fBad := true;
        return ZERO, bit', next', found';
      }
      var hit := vBits[bit'];
      bit' := bit' + 1;
      if height == 0 || !hit {
        if next' >= |vHash| {
          fBad := true;
          return ZERO, bit', next', found';
        }
        h := vHash[next'];
        next' := next' + 1;
        if height == 0 && hit {
          found' := found' + [h];
        }
      } else {
        ExtractOfInner(hash, nTransactions, height, pos, Data(), bit, next);
        h, bit', next', found' := ExtractBelow(height, pos, bit', next', found');
      }
    }

    method ExtractBelow(height: nat, pos: nat, bit: nat, next: nat, found: seq<Hash>)
      returns (h: Hash, bit': nat, next': nat, found': seq<Hash>)
      requires height > 0
      modifies `fBad
      ensures var left := Extract(hash, nTransactions, height - 1, 2 * pos, Data(), bit, next);
              if Node(nTransactions, height - 1, 2 * pos + 1) then
                var right := Extract(hash, nTransactions, height - 1, 2 * pos + 1, Data(), left.bit, left.next);
                && h == hash(left.hash, right.hash) && bit' == right.bit && next' == right.next
                && found' == found + (left.found + right.found) && fBad == (old(fBad) || left.bad || right.bad)
              else
                && h == hash(left.hash, left.hash) && bit' == left.bit && next' == left.next
                && found' == found + left.found && fBad == (old(fBad) || left.bad)
      decreases height, 0
    {
      hide Node, Width, Extract;
      WidthBoundsNodes(nTransactions, height - 1, 2 * pos + 1);
      var left, right;
      left, bit', next', found' := TraverseAndExtract(height - 1, 2 * pos, bit, next, found);
      if 2 * pos + 1 < Width(nTransactions, height - 1) {
        right, bit', next', found' := TraverseAndExtract(height - 1, 2 * pos + 1, bit', next', found');
      } else {
        right := left;
      }
      h := hash(left, right);
    }

    /** A tree that has once been found bad stays so. */
    method ExtractMatches() returns (root: Hash, found: seq<Hash>)
      modifies `fBad
      ensures var m := MerkleTree.ExtractMatches(hash, nTransactions, Data());
              root == (if old(fBad) then ZERO else m.root) && found == m.found
    {
      hide Extract, Height;
      root, found := ZERO, [];
      if nTransactions == 0 || nTransactions > MAX_BLOCK_SIZE_CURRENT / 60 || |vHash| > nTransactions || |vBits| < |vHash| {
        return;
      }
      var height := CalcHeight();
      var h, bit, next;
      h, bit, next, found := TraverseAndExtract(height, 0, 0, 0, found);
      if fBad || (bit + 7) / 8 != (|vBits| + 7) / 8 || next != |vHash| {
        return;
      }
      root := h;
    }

    /** SerializationOp for writing: the flag bits go into a byte array in place. */
    method Write() returns (n: nat, hashes: seq<Hash>, bytes: array<Byte>)
      ensures n == nTransactions && hashes == vHash && fresh(bytes) && bytes[..] == Pack(vBits)
    {
      hide Octet, ByteOf, BitAt, Pow2;
      n, hashes := nTransactions, vHash;
      bytes := new Byte[(|vBits| + 7) / 8](_ => 0);
      NoOctets();
      for p := 0 to |vBits|
        invariant forall q | 0 <= q < bytes.Length :: bytes[q] == ByteOf(Octet(vBits[..p], q))
      {
        OctetGrows(vBits, p);
        OctetIsByte(vBits[..p + 1], p / 8);
        if vBits[p] && !BitAt(bytes[p / 8], p % 8) {
          bytes[p / 8] := bytes[p / 8] + Pow2(p % 8);
        }
      }
      assert vBits[..|vBits|] == vBits;
    }

    /** SerializationOp for reading. */
    constructor Read(hash: (Hash, Hash) -> Hash, n: nat, hashes: seq<Hash>, bytes: seq<Byte>)
      ensures this.hash == hash && nTransactions == n && !fBad && Data() == Stored(Unpack(bytes), hashes)
    {
      this.hash := hash;
      nTransactions, vHash, fBad := n, hashes, false;
      var bits := [];
      while |bits| < 8 * |bytes|
        invariant |bits| <= 8 * |bytes| && bits == Unpack(bytes)[..|bits|]
      {
        bits := bits + [BitAt(bytes[|bits| / 8], |bits| % 8)];
      }
      vBits := bits;
    }
  }

  /** Sent and received, a tree still yields the block's root and the chosen ids. */
  method SendAndExtract(hash: (Hash, Hash) -> Hash, txids: seq<Hash>, marks: seq<bool>) returns (root: Hash, found: seq<Hash>)
    requires 0 < |txids| <= MAX_BLOCK_SIZE_CURRENT / 60 && |marks| == |txids|
    ensures root == Root(hash, txids) && found == Marked(txids, marks)
  {
    var tree := new PartialMerkleTree(hash, txids, marks);
    var n, hashes, bytes := tree.Write();
    ghost var padding := UnpackPack(tree.vBits);
    var received := new PartialMerkleTree.Read(hash, n, hashes, bytes[..]);
    MerkleTree.RoundTrip(hash, txids, marks, padding);
    root, found := received.ExtractMatches();
  }
}
