/** The root as a block computes it, the order in which a small tree is written, and what is left over when reading. */
module MerkleLaws {
  import opened Arithmetic
  import opened Primitives
  import opened MerkleTree

  // ---------- the root, level by level ----------

  /** The next level: pairs of neighbours hashed, the last with itself if it has none. */
  function Pairs(f: (Hash, Hash) -> Hash, level: seq<Hash>): (r: seq<Hash>)
    ensures |r| == (|level| + 1) / 2
    ensures forall i | 0 <= i < |r| :: r[i] == f(level[2 * i], level[if 2 * i + 1 < |level| then 2 * i + 1 else |level| - 1])
  {
    seq((|level| + 1) / 2,
        i requires 0 <= i < (|level| + 1) / 2 => f(level[2 * i], level[if 2 * i + 1 < |level| then 2 * i + 1 else |level| - 1]))
  }

  /** BuildMerkleTree: one level after another until one hash is left. */
  function RootByLevels(f: (Hash, Hash) -> Hash, level: seq<Hash>): Hash
    requires level != []
    decreases |level|
  {
    if |level| == 1 then level[0] else RootByLevels(f, Pairs(f, level))
  }

  /** A level of the tree: the hashes of its nodes. */
  function Level(f: (Hash, Hash) -> Hash, h: nat, txids: seq<Hash>): (r: seq<Hash>)
    ensures |r| == Width(|txids|, h)
    ensures forall pos | 0 <= pos < |r| :: Node(|txids|, h, pos) && r[pos] == CalcHash(f, h, pos, txids)
  {
    WidthIsNodes(|txids|, h);
    seq(Width(|txids|, h), pos requires 0 <= pos < Width(|txids|, h) => CalcHash(f, h, pos, txids))
  }

  lemma WidthIsNodes(n: nat, h: nat)
    ensures forall pos: nat :: pos < Width(n, h) <==> Node(n, h, pos)
  {
    forall pos: nat ensures pos < Width(n, h) <==> Node(n, h, pos) {
      WidthBoundsNodes(n, h, pos);
    }
  }

  /** Each level has half as many nodes as the one below it, rounded up. */
  lemma WidthHalves(n: nat, h: nat)
    ensures Width(n, h + 1) == (Width(n, h) + 1) / 2
  {
    hide Width, Node;
    var w, v := Width(n, h), Width(n, h + 1);
    WidthIsNodes(n, h);
    WidthIsNodes(n, h + 1);
    SameFirst(n, h, v);
    if v > 0 {
      SameFirst(n, h, v - 1);
    }
  }

  lemma SameFirst(n: nat, h: nat, pos: nat)
    ensures Node(n, h + 1, pos) <==> Node(n, h, 2 * pos)
  {
    FirstOfChild(h + 1, pos);
  }

  lemma LevelIsPairs(f: (Hash, Hash) -> Hash, h: nat, txids: seq<Hash>)
    ensures Level(f, h + 1, txids) == Pairs(f, Level(f, h, txids))
  {
    hide CalcHash, Node, Width;
    var below, level := Level(f, h, txids), Level(f, h + 1, txids);
    WidthHalves(|txids|, h);
    WidthIsNodes(|txids|, h);
    forall pos | 0 <= pos < |level| ensures level[pos] == Pairs(f, below)[pos] {
      CalcOfInner(f, h + 1, pos, txids);
    }
  }

  lemma {:induction false} LevelsLeadToRoot(f: (Hash, Hash) -> Hash, h: nat, txids: seq<Hash>)
    requires |txids| > 0
    ensures Level(f, h, txids) != [] && Node(|txids|, HeightFrom(|txids|, h), 0)
    ensures RootByLevels(f, Level(f, h, txids)) == CalcHash(f, HeightFrom(|txids|, h), 0, txids)
    decreases |Level(f, h, txids)|
  {
    hide CalcHash, Pairs;
    WidthBoundsNodes(|txids|, h, 0);
    FirstIsNode(|txids|, h);
    FirstIsNode(|txids|, HeightFrom(|txids|, h));
    if Width(|txids|, h) > 1 {
      WidthHalves(|txids|, h);
      LevelIsPairs(f, h, txids);
      LevelsLeadToRoot(f, h + 1, txids);
    }
  }

  lemma FirstIsNode(n: nat, h: nat)
    requires n > 0
    ensures Node(n, h, 0)
  {
    assert 0 * Pow2(h) == 0;
  }

  /** The root that the recursion over the tree computes is the one that a block computes level by level. */
  lemma RootIsLevelByLevel(f: (Hash, Hash) -> Hash, txids: seq<Hash>)
    requires |txids| > 0
    ensures Root(f, txids) == RootByLevels(f, txids)
  {
    LevelsLeadToRoot(f, 0, txids);
    LowestLevel(f, txids);
  }

  lemma LowestLevel(f: (Hash, Hash) -> Hash, txids: seq<Hash>)
    ensures Level(f, 0, txids) == txids
  {
    assert Pow2(0) == 1 && Width(|txids|, 0) == |txids|;
  }

  // ---------- reading what was written, and more ----------

  /**
   Whatever is added to what was written is noticed: the root comes out exactly if no hash and no
   whole byte of bits is left over, and zero otherwise.
   */
  lemma NothingIsLeftOver(f: (Hash, Hash) -> Hash, txids: seq<Hash>, marks: seq<bool>, bits: seq<bool>, hashes: seq<Hash>)
    requires 0 < |txids| <= 33333 && |marks| == |txids|
    ensures var b := BuildAll(f, txids, marks); var r := ExtractMatches(f, |txids|, Stored(b.bits + bits, b.hashes + hashes)).root;
            r == if hashes == [] && (|b.bits| + 7) / 8 == (|b.bits| + |bits| + 7) / 8 then Root(f, txids) else 0
  {
    var b := BuildAll(f, txids, marks);
    var s := Stored(b.bits + bits, b.hashes + hashes);
    hide Build, Extract, CalcHash, Under;
    BuildIsSmall(f, Height(|txids|), 0, txids, marks);
    assert StandsAt(b, s, 0, 0);
    ExtractReadsBuild(f, Height(|txids|), 0, txids, marks, s, 0, 0);
  }

  /** More transactions than fit into a block, more hashes than transactions, or fewer bits than hashes are refused. */
  lemma SizesAreChecked(f: (Hash, Hash) -> Hash, n: nat, s: Stored)
    requires n == 0 || n > 33333 || |s.hashes| > n || |s.bits| < |s.hashes|
    ensures ExtractMatches(f, n, s) == Matches(0, [])
  {
  }

  // ---------- a small tree ----------

  lemma PairOfFour(f: (Hash, Hash) -> Hash, txids: seq<Hash>)
    requires |txids| == 4
    ensures Width(4, 0) == 4 && Width(4, 1) == 2 && Width(4, 2) == 1 && Height(4) == 2
    ensures Node(4, 1, 0) && CalcHash(f, 1, 0, txids) == f(txids[0], txids[1])
  {
    hide Width, HeightFrom, Node, CalcHash;
    WidthsOfFour();
    HeightStep(4, 0);
    HeightStep(4, 1);
    HeightStep(4, 2);
    WidthBoundsNodes(4, 1, 0);
    WidthBoundsNodes(4, 0, 0);
    WidthBoundsNodes(4, 0, 1);
    CalcOfInner(f, 1, 0, txids);
    CalcOfLeaf(f, 0, txids);
    CalcOfLeaf(f, 1, txids);
  }

  lemma WidthsOfFour()
    ensures Width(4, 0) == 4 && Width(4, 1) == 2 && Width(4, 2) == 1
  {
    assert Pow2(0) == 1 && Pow2(1) == 2 && Pow2(2) == 4;
  }

  lemma HeightStep(n: nat, h: nat)
    requires n > 0
    ensures HeightFrom(n, h) == if Width(n, h) > 1 then HeightFrom(n, h + 1) else h
  {
    hide Width;
  }

  lemma CalcOfLeaf(f: (Hash, Hash) -> Hash, pos: nat, txids: seq<Hash>)
    requires Node(|txids|, 0, pos)
    ensures pos < |txids| && CalcHash(f, 0, pos, txids) == txids[pos]
  {
    UnderLeaf(txids, pos);
  }

  lemma MarksOfFour()
    ensures var m := [false, false, true, false];
            && Node(4, 2, 0) && true in Under(m, 2, 0) && Node(4, 1, 0) && true !in Under(m, 1, 0)
            && Node(4, 1, 1) && true in Under(m, 1, 1) && Node(4, 0, 2) && Node(4, 0, 3)
            && Under(m, 0, 2) == [true] && Under(m, 0, 3) == [false]
  {
    var m := [false, false, true, false];
    assert Pow2(0) == 1 && Pow2(1) == 2 && Pow2(2) == 4;
    UnderLeaf(m, 2);
    UnderLeaf(m, 3);
    assert Under(m, 1, 0) == [false, false] && Under(m, 1, 1)[0] && Under(m, 2, 0)[2];
  }

  lemma LeafIs(f: (Hash, Hash) -> Hash, pos: nat, txids: seq<Hash>, marks: seq<bool>)
    requires |marks| == |txids| && Node(|txids|, 0, pos)
    ensures pos < |txids| && Build(f, 0, pos, txids, marks) == Stored([marks[pos]], [txids[pos]])
  {
    UnderLeaf(txids, pos);
    UnderLeaf(marks, pos);
    hide Under, Node, First, Past, Pow2;
    var b := Build(f, 0, pos, txids, marks);
    assert |b.bits| == 1 && |b.hashes| == 1 && b.hashes[0] == txids[pos] && b.bits[0] == marks[pos];
  }

  lemma UnmarkedIs(f: (Hash, Hash) -> Hash, h: nat, pos: nat, txids: seq<Hash>, marks: seq<bool>)
    requires |marks| == |txids| && Node(|txids|, h, pos) && true !in Under(marks, h, pos)
    ensures Build(f, h, pos, txids, marks) == Stored([false], [CalcHash(f, h, pos, txids)])
  {
  }

  lemma RightHalf(f: (Hash, Hash) -> Hash, txids: seq<Hash>)
    requires |txids| == 4
    ensures Node(4, 1, 1) && Build(f, 1, 1, txids, [false, false, true, false]) == Stored([true, true, false], [txids[2], txids[3]])
  {
    hide Node, Under, Build;
    var m := [false, false, true, false];
    MarksOfFour();
    LeafIs(f, 2, txids, m);
    LeafIs(f, 3, txids, m);
    BuildOfInner(f, 1, 1, txids, m);
  }

  lemma JoinThree(ab: Hash, c: Hash, d: Hash)
    ensures Join(Stored([true], []), Join(Stored([false], [ab]), Stored([true, true, false], [c, d])))
            == Stored([true, false, true, true, false], [ab, c, d])
  {
  }

  /** Of four transactions the third: root, left half as one hash, right half with both its hashes. */
  lemma ThirdOfFour(f: (Hash, Hash) -> Hash, a: Hash, b: Hash, c: Hash, d: Hash)
    ensures BuildAll(f, [a, b, c, d], [false, false, true, false])
            == Stored([true, false, true, true, false], [f(a, b), c, d])
  {
    hide Node, Under, Build, Height, CalcHash, First, Past, Pow2, Width, Join;
    var txids, m := [a, b, c, d], [false, false, true, false];
    PairOfFour(f, txids);
    MarksOfFour();
    UnmarkedIs(f, 1, 0, txids, m);
    RightHalf(f, txids);
    BuildOfInner(f, 2, 0, txids, m);
    JoinThree(f(a, b), c, d);
    assert BuildAll(f, txids, m) == Build(f, 2, 0, txids, m) == Join(Stored([true], []), Join(Build(f, 1, 0, txids, m), Build(f, 1, 1, txids, m)));
  }
}
