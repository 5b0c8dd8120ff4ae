/** Partial Merkle trees as values: what is written for a block, and what reading it gives back. */
module MerkleTree {
  import opened Arithmetic
  import opened Primitives

  const ZERO: Hash := 0
  const MAX_BLOCK_SIZE_CURRENT: nat := 2000000

  // ---------- the shape of the tree over n transactions ----------

  /** The position of the first transaction under a node: pos shifted left by the height. */
  function First(h: nat, pos: nat): nat { pos * Pow2(h) }

  /** CalcTreeWidth */
  function Width(n: nat, h: nat): nat { (n + Pow2(h) - 1) / Pow2(h) }

  predicate Node(n: nat, h: nat, pos: nat) { First(h, pos) < n }

  /** One past the last transaction under a node. */
  function Past(n: nat, h: nat, pos: nat): nat {
    if First(h, pos + 1) < n then First(h, pos + 1) else n
  }

  lemma FirstOfChild(h: nat, pos: nat)
    requires h > 0
    ensures First(h - 1, 2 * pos) == First(h, pos)
    ensures First(h - 1, 2 * pos + 1) == First(h, pos) + Pow2(h - 1)
    ensures First(h, pos + 1) == First(h, pos) + Pow2(h)
  {
    var p := Pow2(h - 1);
    assert (2 * pos) * p == pos * (2 * p);
    assert (2 * pos + 1) * p == (2 * pos) * p + p;
    assert (pos + 1) * (2 * p) == pos * (2 * p) + 2 * p;
  }

  /** A position is within the width of its level exactly when there is a transaction under it. */
  lemma WidthBoundsNodes(n: nat, h: nat, pos: nat)
    ensures pos < Width(n, h) <==> Node(n, h, pos)
  {
    DivAbove(n + Pow2(h) - 1, Pow2(h), pos);
  }

  /** The transactions under a node are those under its left child followed by those under its right, if any. */
  lemma Children(n: nat, h: nat, pos: nat)
    requires h > 0 && Node(n, h, pos)
    ensures Node(n, h - 1, 2 * pos) && First(h - 1, 2 * pos) == First(h, pos)
    ensures if Node(n, h - 1, 2 * pos + 1) then
              && Past(n, h - 1, 2 * pos) == First(h - 1, 2 * pos + 1)
              && Past(n, h - 1, 2 * pos + 1) == Past(n, h, pos)
            else Past(n, h - 1, 2 * pos) == Past(n, h, pos)
  {
    FirstOfChild(h, pos);
    FirstOfChild(h, pos + 1);
    assert 2 * pos + 1 + 1 == 2 * (pos + 1);
  }

  lemma NodeSpan(n: nat, h: nat, pos: nat)
    requires Node(n, h, pos)
    ensures First(h, pos) < Past(n, h, pos) <= n
    ensures h == 0 ==> First(h, pos) == pos && Past(n, h, pos) == pos + 1
  {
    assert (pos + 1) * Pow2(h) == pos * Pow2(h) + Pow2(h);
  }

  /** The transactions, or the marks, under a node. */
  function Under<T>(s: seq<T>, h: nat, pos: nat): (r: seq<T>)
    requires Node(|s|, h, pos)
    ensures |r| == Past(|s|, h, pos) - First(h, pos)
  {
    NodeSpan(|s|, h, pos);
    s[First(h, pos)..Past(|s|, h, pos)]
  }

  lemma SliceJoin<T>(s: seq<T>, i: nat, j: nat, k: nat)
    requires i <= j <= k <= |s|
    ensures s[i..k] == s[i..j] + s[j..k]
  {
  }

  lemma UnderChildren<T>(s: seq<T>, h: nat, pos: nat)
    requires h > 0 && Node(|s|, h, pos)
    ensures Node(|s|, h - 1, 2 * pos)
    ensures Under(s, h, pos) == Under(s, h - 1, 2 * pos) + if Node(|s|, h - 1, 2 * pos + 1) then Under(s, h - 1, 2 * pos + 1) else []
  {
    hide First, Past, Pow2, Node;
    Children(|s|, h, pos);
    NodeSpan(|s|, h - 1, 2 * pos);
    if Node(|s|, h - 1, 2 * pos + 1) {
      NodeSpan(|s|, h - 1, 2 * pos + 1);
      SliceJoin(s, First(h, pos), First(h - 1, 2 * pos + 1), Past(|s|, h, pos));
    }
  }

  lemma UnderLeaf<T>(s: seq<T>, pos: nat)
    requires Node(|s|, 0, pos)
    ensures pos < |s| && Under(s, 0, pos) == [s[pos]]
  {
    NodeSpan(|s|, 0, pos);
  }

  // ---------- the full tree ----------

  function CalcHash(f: (Hash, Hash) -> Hash, h: nat, pos: nat, txids: seq<Hash>): Hash
    requires Node(|txids|, h, pos)
    decreases h
  {
    if h == 0 then (UnderLeaf(txids, pos); txids[pos]) else
      Children(|txids|, h, pos);
      var left := CalcHash(f, h - 1, 2 * pos, txids);
      var right := if Node(|txids|, h - 1, 2 * pos + 1) then CalcHash(f, h - 1, 2 * pos + 1, txids) else left;
      f(left, right)
  }

  function HeightFrom(n: nat, h: nat): (r: nat)
    requires n > 0
    ensures r >= h && Width(n, r) == 1
    decreases n - Pow2(h)
  {
    WidthBoundsNodes(n, h, 0);
    WidthBoundsNodes(n, h, 1);
    if Width(n, h) > 1 then HeightFrom(n, h + 1) else h
  }

  function Height(n: nat): (h: nat)
    requires n > 0
    ensures Width(n, h) == 1 && Node(n, h, 0)
  {
    WidthBoundsNodes(n, HeightFrom(n, 0), 0);
    HeightFrom(n, 0)
  }

  lemma RootSpansAll<T>(s: seq<T>)
    requires |s| > 0
    ensures Under(s, Height(|s|), 0) == s
  {
    WidthBoundsNodes(|s|, Height(|s|), 1);
    NodeSpan(|s|, Height(|s|), 0);
  }

  function Root(f: (Hash, Hash) -> Hash, txids: seq<Hash>): Hash
    requires |txids| > 0
  {
    CalcHash(f, Height(|txids|), 0, txids)
  }

  // ---------- writing ----------

  datatype Stored = Stored(bits: seq<bool>, hashes: seq<Hash>)

  function Join(a: Stored, b: Stored): Stored { Stored(a.bits + b.bits, a.hashes + b.hashes) }

  function Build(f: (Hash, Hash) -> Hash, h: nat, pos: nat, txids: seq<Hash>, marks: seq<bool>): (r: Stored)
    requires |marks| == |txids| && Node(|txids|, h, pos)
    decreases h
  {
    var hit := true in Under(marks, h, pos);
    if h == 0 || !hit then Stored([hit], [CalcHash(f, h, pos, txids)]) else
      Children(|txids|, h, pos);
      var left := Build(f, h - 1, 2 * pos, txids, marks);
      var below := if Node(|txids|, h - 1, 2 * pos + 1) then Join(left, Build(f, h - 1, 2 * pos + 1, txids, marks)) else left;
      Join(Stored([hit], []), below)
  }

  /** What is written for a block. */
  function BuildAll(f: (Hash, Hash) -> Hash, txids: seq<Hash>, marks: seq<bool>): Stored
    requires |marks| == |txids| > 0
  {
    Build(f, Height(|txids|), 0, txids, marks)
  }

  lemma BuildOfInner(f: (Hash, Hash) -> Hash, h: nat, pos: nat, txids: seq<Hash>, marks: seq<bool>)
    requires h > 0 && |marks| == |txids| && Node(|txids|, h, pos) && true in Under(marks, h, pos)
    ensures Node(|txids|, h - 1, 2 * pos)
    ensures var left := Build(f, h - 1, 2 * pos, txids, marks);
            Build(f, h, pos, txids, marks) == Join(Stored([true], []),
              if Node(|txids|, h - 1, 2 * pos + 1) then Join(left, Build(f, h - 1, 2 * pos + 1, txids, marks)) else left)
  {
    Children(|txids|, h, pos);
  }

  /** At most one hash per transaction, and at least one bit per hash. */
  lemma {:induction false} BuildIsSmall(f: (Hash, Hash) -> Hash, h: nat, pos: nat, txids: seq<Hash>, marks: seq<bool>)
    requires |marks| == |txids| && Node(|txids|, h, pos)
    ensures var r := Build(f, h, pos, txids, marks);
            |r.hashes| <= |Under(txids, h, pos)| && |r.hashes| <= |r.bits|
    decreases h
  {
    if h > 0 && true in Under(marks, h, pos) {
      InnerIsSmall(f, h, pos, txids, marks);
    } else {
      NodeSpan(|txids|, h, pos);
    }
  }

  lemma {:induction false} InnerIsSmall(f: (Hash, Hash) -> Hash, h: nat, pos: nat, txids: seq<Hash>, marks: seq<bool>)
    requires h > 0 && |marks| == |txids| && Node(|txids|, h, pos) && true in Under(marks, h, pos)
    ensures var r := Build(f, h, pos, txids, marks);
            |r.hashes| <= |Under(txids, h, pos)| && |r.hashes| <= |r.bits|
    decreases h, 0
  {
    hide Build, Under, Node, First, Past;
    BuildOfInner(f, h, pos, txids, marks);
    UnderChildren(txids, h, pos);
    BuildIsSmall(f, h - 1, 2 * pos, txids, marks);
    if Node(|txids|, h - 1, 2 * pos + 1) {
      BuildIsSmall(f, h - 1, 2 * pos + 1, txids, marks);
    }
  }

  /** One hash, and one for each marked transaction and level. */
  function Allowance(c: nat, h: nat): nat { 1 + c * h }

  lemma AllowanceOfTwo(a: nat, b: nat, h: nat)
    requires h > 0 && a + b > 0
    ensures Allowance(a, h - 1) + Allowance(b, h - 1) <= Allowance(a + b, h)
    ensures Allowance(a + b, h - 1) <= Allowance(a + b, h)
  {
    assert (a + b) * h == (a + b) * (h - 1) + (a + b);
    assert (a + b) * (h - 1) == a * (h - 1) + b * (h - 1);
  }

  /** The documented bound on the number of hashes. */
  lemma {:induction false} BuildIsSparse(f: (Hash, Hash) -> Hash, h: nat, pos: nat, txids: seq<Hash>, marks: seq<bool>)
    requires |marks| == |txids| && Node(|txids|, h, pos)
    ensures |Build(f, h, pos, txids, marks).hashes| <= Allowance(Count(Under(marks, h, pos)), h)
    decreases h
  {
    if h > 0 && true in Under(marks, h, pos) {
      InnerIsSparse(f, h, pos, txids, marks);
    } else {
      assert Count(Under(marks, h, pos)) * h >= 0;
    }
  }

  lemma CountOfInner(marks: seq<bool>, h: nat, pos: nat)
    requires h > 0 && Node(|marks|, h, pos) && true in Under(marks, h, pos)
    ensures Node(|marks|, h - 1, 2 * pos) && Count(Under(marks, h, pos)) > 0
    ensures Count(Under(marks, h, pos)) == Count(Under(marks, h - 1, 2 * pos))
              + if Node(|marks|, h - 1, 2 * pos + 1) then Count(Under(marks, h - 1, 2 * pos + 1)) else 0
  {
    hide Under, Node, Count;
    UnderChildren(marks, h, pos);
    CountOne(Under(marks, h, pos));
    var a := Under(marks, h - 1, 2 * pos);
    if Node(|marks|, h - 1, 2 * pos + 1) {
      CountJoin(a, Under(marks, h - 1, 2 * pos + 1));
    } else {
      assert Under(marks, h, pos) == a;
    }
  }

  lemma {:induction false} InnerIsSparse(f: (Hash, Hash) -> Hash, h: nat, pos: nat, txids: seq<Hash>, marks: seq<bool>)
    requires h > 0 && |marks| == |txids| && Node(|txids|, h, pos) && true in Under(marks, h, pos)
    ensures |Build(f, h, pos, txids, marks).hashes| <= Allowance(Count(Under(marks, h, pos)), h)
    decreases h, 0
  {
    hide Build, Under, Node, Count, Allowance;
    BuildOfInner(f, h, pos, txids, marks);
    CountOfInner(marks, h, pos);
    BuildIsSparse(f, h - 1, 2 * pos, txids, marks);
    var a := Count(Under(marks, h - 1, 2 * pos));
    if Node(|txids|, h - 1, 2 * pos + 1) {
      BuildIsSparse(f, h - 1, 2 * pos + 1, txids, marks);
      AllowanceOfTwo(a, Count(Under(marks, h - 1, 2 * pos + 1)), h);
    } else {
      AllowanceOfTwo(a, 0, h);
    }
  }

  function Count(marks: seq<bool>): nat {
    if marks == [] then 0 else (if marks[0] then 1 else 0) + Count(marks[1..])
  }

  lemma {:induction false} CountJoin(a: seq<bool>, b: seq<bool>)
    ensures Count(a + b) == Count(a) + Count(b)
    decreases |a|
  {
    if a == [] {
      assert a + b == b;
    } else {
      assert (a + b)[1..] == a[1..] + b;
      CountJoin(a[1..], b);
    }
  }

  lemma {:induction false} CountOne(marks: seq<bool>)
    ensures Count(marks) > 0 <==> true in marks
    decreases |marks|
  {
    if marks != [] {
      CountOne(marks[1..]);
    }
  }

  /** How many of the nodes descended into have only a left child. */
  function Lonely(h: nat, pos: nat, marks: seq<bool>): nat
    requires Node(|marks|, h, pos)
    decreases h
  {
    if h == 0 || true !in Under(marks, h, pos) then 0 else
      Children(|marks|, h, pos);
      Lonely(h - 1, 2 * pos, marks)
      + if Node(|marks|, h - 1, 2 * pos + 1) then Lonely(h - 1, 2 * pos + 1, marks) else 1
  }

  /** Two bits for every hash but one, and one more for every node with a single child. */
  lemma {:induction false} BitsPerHash(f: (Hash, Hash) -> Hash, h: nat, pos: nat, txids: seq<Hash>, marks: seq<bool>)
    requires |marks| == |txids| && Node(|txids|, h, pos)
    ensures var r := Build(f, h, pos, txids, marks); |r.bits| == 2 * |r.hashes| - 1 + Lonely(h, pos, marks)
    decreases h
  {
    if h > 0 && true in Under(marks, h, pos) {
      BuildOfInner(f, h, pos, txids, marks);
      hide Build, Under, First, Past, Pow2, Node;
      BitsPerHash(f, h - 1, 2 * pos, txids, marks);
      if Node(|txids|, h - 1, 2 * pos + 1) {
        BitsPerHash(f, h - 1, 2 * pos + 1, txids, marks);
      }
    }
  }

  /** The last node of its level. */
  predicate Last(n: nat, h: nat, pos: nat) { Node(n, h, pos) && !Node(n, h, pos + 1) }

  /** The level has an odd number of nodes, and there is a mark under the last of them. */
  predicate OddlyMarked(marks: seq<bool>, h: nat)
    requires marks != []
  {
    var w := Width(|marks|, h);
    WidthBoundsNodes(|marks|, h, 0);
    WidthBoundsNodes(|marks|, h, w - 1);
    w % 2 == 1 && true in Under(marks, h, w - 1)
  }

  lemma LastIsWidth(n: nat, h: nat, pos: nat)
    ensures Last(n, h, pos) <==> pos + 1 == Width(n, h)
  {
    WidthBoundsNodes(n, h, pos);
    WidthBoundsNodes(n, h, pos + 1);
  }

  lemma LastChild(n: nat, h: nat, pos: nat)
    requires h > 0 && Node(n, h, pos)
    ensures Node(n, h - 1, 2 * pos) && (Node(n, h - 1, 2 * pos + 1) ==> !Last(n, h - 1, 2 * pos))
    ensures Node(n, h - 1, 2 * pos + 1) ==> (Last(n, h, pos) <==> Last(n, h - 1, 2 * pos + 1))
    ensures !Node(n, h - 1, 2 * pos + 1) ==> Last(n, h, pos) && Last(n, h - 1, 2 * pos)
  {
    Children(n, h, pos);
    FirstOfChild(h, pos);
    FirstOfChild(h, pos + 1);
    assert 2 * pos + 1 + 1 == 2 * (pos + 1);
  }

  /** Under an unmarked last node every lower level ends unmarked. */
  lemma {:induction false} UnmarkedToTheEnd(marks: seq<bool>, h: nat, pos: nat, j: nat)
    requires marks != [] && Last(|marks|, h, pos) && true !in Under(marks, h, pos) && j <= h
    ensures !OddlyMarked(marks, j)
    decreases h
  {
    hide First, Past, Pow2, Node, Width, Under;
    if j == h {
      LastIsWidth(|marks|, h, pos);
    } else {
      LastChild(|marks|, h, pos);
      UnderChildren(marks, h, pos);
      UnmarkedToTheEnd(marks, h - 1, if Node(|marks|, h - 1, 2 * pos + 1) then 2 * pos + 1 else 2 * pos, j);
    }
  }

  ghost predicate SomeOddlyMarked(marks: seq<bool>, h: nat)
    requires marks != []
  {
    exists j: nat :: j < h && OddlyMarked(marks, j)
  }

  lemma OneLevelMore(marks: seq<bool>, h: nat)
    requires marks != []
    ensures SomeOddlyMarked(marks, h + 1) <==> SomeOddlyMarked(marks, h) || OddlyMarked(marks, h)
    ensures !SomeOddlyMarked(marks, 0)
  {
    if SomeOddlyMarked(marks, h) {
      var j: nat :| j < h && OddlyMarked(marks, j);
      assert j < h + 1;
    }
  }

  /** Nodes with a single child are entered only along the right edge, where a level of odd width ends in a mark. */
  lemma {:induction false} LonelyIsAtTheEnd(h: nat, pos: nat, marks: seq<bool>)
    requires Node(|marks|, h, pos)
    ensures marks != [] && (Lonely(h, pos, marks) > 0 <==> Last(|marks|, h, pos) && SomeOddlyMarked(marks, h))
    decreases h
  {
    assert marks != [];
    if h == 0 {
      OneLevelMore(marks, 0);
    } else if true !in Under(marks, h, pos) {
      if Last(|marks|, h, pos) && SomeOddlyMarked(marks, h) {
        var j: nat :| j < h && OddlyMarked(marks, j);
        UnmarkedToTheEnd(marks, h, pos, j);
      }
    } else {
      LonelyBelow(h, pos, marks);
    }
  }

  lemma {:induction false} LonelyBelow(h: nat, pos: nat, marks: seq<bool>)
    requires h > 0 && marks != [] && Node(|marks|, h, pos) && true in Under(marks, h, pos)
    ensures Lonely(h, pos, marks) > 0 <==> Last(|marks|, h, pos) && SomeOddlyMarked(marks, h)
    decreases h, 0
  {
    hide First, Past, Pow2, Node, Width, Under, Last, SomeOddlyMarked, OddlyMarked, Lonely;
    LonelyStep(h, pos, marks);
    LastChild(|marks|, h, pos);
    LonelyIsAtTheEnd(h - 1, 2 * pos, marks);
    OneLevelMore(marks, h - 1);
    if Node(|marks|, h - 1, 2 * pos + 1) {
      LonelyIsAtTheEnd(h - 1, 2 * pos + 1, marks);
      if Last(|marks|, h, pos) {
        OddAtTheEnd(marks, h - 1, 2 * pos + 1);
      }
    } else {
      OddAtTheEnd(marks, h - 1, 2 * pos);
      UnderChildren(marks, h, pos);
      assert Under(marks, h, pos) == Under(marks, h - 1, 2 * pos);
    }
  }

  lemma OddAtTheEnd(marks: seq<bool>, h: nat, pos: nat)
    requires marks != [] && Last(|marks|, h, pos)
    ensures OddlyMarked(marks, h) <==> pos % 2 == 0 && true in Under(marks, h, pos)
  {
    LastIsWidth(|marks|, h, pos);
    hide Width, Under, Node;
  }

  lemma LonelyStep(h: nat, pos: nat, marks: seq<bool>)
    requires h > 0 && Node(|marks|, h, pos) && true in Under(marks, h, pos)
    ensures Node(|marks|, h - 1, 2 * pos)
    ensures Lonely(h, pos, marks) == Lonely(h - 1, 2 * pos, marks)
              + if Node(|marks|, h - 1, 2 * pos + 1) then Lonely(h - 1, 2 * pos + 1, marks) else 1
  {
    Children(|marks|, h, pos);
  }

  /**
   So the documented bound of 2N - 1 bits for N hashes holds exactly if no level below the root has
   an odd number of nodes and a chosen transaction under the last of them.
   */
  lemma DocumentedBitBound(f: (Hash, Hash) -> Hash, txids: seq<Hash>, marks: seq<bool>)
    requires |marks| == |txids| > 0
    ensures var r := BuildAll(f, txids, marks);
            |r.bits| <= 2 * |r.hashes| - 1 <==> forall h: nat | h < Height(|txids|) :: !OddlyMarked(marks, h)
  {
    hide Lonely, OddlyMarked, Build;
    BitsPerHash(f, Height(|txids|), 0, txids, marks);
    LonelyIsAtTheEnd(Height(|txids|), 0, marks);
    LastIsWidth(|txids|, Height(|txids|), 0);
  }

  /** Choosing the last of three transactions breaks it. */
  lemma DocumentedBitBoundFails(f: (Hash, Hash) -> Hash, txids: seq<Hash>)
    requires |txids| == 3
    ensures var r := BuildAll(f, txids, [false, false, true]); |r.bits| > 2 * |r.hashes| - 1
  {
    var marks := [false, false, true];
    assert Pow2(0) == 1 && Pow2(1) == 2 && Width(3, 0) == 3 && Height(3) > 0;
    assert Under(marks, 0, 2) == [true] by { UnderLeaf(marks, 2); }
    assert OddlyMarked(marks, 0);
    hide BuildAll, Height, OddlyMarked;
    DocumentedBitBound(f, txids, marks);
  }

  // ---------- reading ----------

  /** What one traversal yields: the hash, the two cursors, the ids found, and whether the data ran out. */
  datatype Read = Read(hash: Hash, bit: nat, next: nat, found: seq<Hash>, bad: bool)

  function Extract(f: (Hash, Hash) -> Hash, n: nat, h: nat, pos: nat, s: Stored, bit: nat, next: nat): Read
    decreases h
  {
    if bit >= |s.bits| then Read(ZERO, bit, next, [], true)
    else if h == 0 || !s.bits[bit] then
      if next >= |s.hashes| then Read(ZERO, bit + 1, next, [], true)
      else Read(s.hashes[next], bit + 1, next + 1, if h == 0 && s.bits[bit] then [s.hashes[next]] else [], false)
    else
      var left := Extract(f, n, h - 1, 2 * pos, s, bit + 1, next);
      if Node(n, h - 1, 2 * pos + 1) then
        var right := Extract(f, n, h - 1, 2 * pos + 1, s, left.bit, left.next);
        Read(f(left.hash, right.hash), right.bit, right.next, left.found + right.found, left.bad || right.bad)
      else
        left.(hash := f(left.hash, left.hash))
  }

  datatype Matches = Matches(root: Hash, found: seq<Hash>)

  /** ExtractMatches: the root, or zero on failure, with the ids found so far. */
  function ExtractMatches(f: (Hash, Hash) -> Hash, n: nat, s: Stored): Matches {
    if n == 0 || n > MAX_BLOCK_SIZE_CURRENT / 60 || |s.hashes| > n || |s.bits| < |s.hashes| then Matches(ZERO, [])
    else
      var r := Extract(f, n, Height(n), 0, s, 0, 0);
      Matches(if r.bad || (r.bit + 7) / 8 != (|s.bits| + 7) / 8 || r.next != |s.hashes| then ZERO else r.hash, r.found)
  }

  // ---------- round trip ----------

  /** The marked transactions, in order. */
  function Marked(txids: seq<Hash>, marks: seq<bool>): seq<Hash>
    requires |txids| == |marks|
  {
    if txids == [] then [] else (if marks[0] then [txids[0]] else []) + Marked(txids[1..], marks[1..])
  }

  lemma MarkedStep(x: Hash, mark: bool, txids: seq<Hash>, marks: seq<bool>)
    requires |txids| == |marks|
    ensures Marked([x] + txids, [mark] + marks) == (if mark then [x] else []) + Marked(txids, marks)
  {
    assert ([x] + txids)[1..] == txids && ([mark] + marks)[1..] == marks;
  }

  lemma {:induction false} MarkedJoin(a: seq<Hash>, m: seq<bool>, b: seq<Hash>, k: seq<bool>)
    requires |a| == |m| && |b| == |k|
    ensures Marked(a + b, m + k) == Marked(a, m) + Marked(b, k)
    decreases |a|
  {
    if a == [] {
      assert a + b == b && m + k == k && Marked(a, m) == [];
    } else {
      hide Marked;
      var first := if m[0] then [a[0]] else [];
      assert a == [a[0]] + a[1..] && m == [m[0]] + m[1..];
      assert a + b == [a[0]] + (a[1..] + b) && m + k == [m[0]] + (m[1..] + k);
      MarkedStep(a[0], m[0], a[1..], m[1..]);
      MarkedStep(a[0], m[0], a[1..] + b, m[1..] + k);
      MarkedJoin(a[1..], m[1..], b, k);
      assert first + (Marked(a[1..], m[1..]) + Marked(b, k)) == (first + Marked(a[1..], m[1..])) + Marked(b, k);
    }
  }

  lemma {:induction false} NoneMarked(txids: seq<Hash>, marks: seq<bool>)
    requires |txids| == |marks| && true !in marks
    ensures Marked(txids, marks) == []
    decreases |txids|
  {
    if txids != [] {
      assert marks[0] in marks;
      NoneMarked(txids[1..], marks[1..]);
    }
  }

  /** At the cursors stand exactly the bits and hashes of b. */
  predicate StandsAt(b: Stored, s: Stored, bit: nat, next: nat) {
    && bit + |b.bits| <= |s.bits| && s.bits[bit..bit + |b.bits|] == b.bits
    && next + |b.hashes| <= |s.hashes| && s.hashes[next..next + |b.hashes|] == b.hashes
  }

  lemma StandsJoin(a: Stored, b: Stored, s: Stored, bit: nat, next: nat)
    requires StandsAt(Join(a, b), s, bit, next)
    ensures StandsAt(a, s, bit, next) && StandsAt(b, s, bit + |a.bits|, next + |a.hashes|)
  {
    var c := Join(a, b);
    assert a.bits == c.bits[..|a.bits|] && b.bits == c.bits[|a.bits|..];
    assert a.hashes == c.hashes[..|a.hashes|] && b.hashes == c.hashes[|a.hashes|..];
  }

  /** Reading a node where it was written gives its hash, its marked ids and the cursors just past it. */
  lemma {:induction false} ExtractReadsBuild(f: (Hash, Hash) -> Hash, h: nat, pos: nat, txids: seq<Hash>, marks: seq<bool>,
                                             s: Stored, bit: nat, next: nat)
    requires |marks| == |txids| && Node(|txids|, h, pos)
    requires StandsAt(Build(f, h, pos, txids, marks), s, bit, next)
    ensures var b := Build(f, h, pos, txids, marks);
            Extract(f, |txids|, h, pos, s, bit, next)
            == Read(CalcHash(f, h, pos, txids), bit + |b.bits|, next + |b.hashes|, Marked(Under(txids, h, pos), Under(marks, h, pos)), false)
    decreases h
  {
    if h == 0 {
      LeafReads(f, pos, txids, marks, s, bit, next);
    } else if true !in Under(marks, h, pos) {
      NoneMarked(Under(txids, h, pos), Under(marks, h, pos));
      var b := Build(f, h, pos, txids, marks);
      assert s.bits[bit] == b.bits[0] && s.hashes[next] == b.hashes[0];
    } else {
      InnerReads(f, h, pos, txids, marks, s, bit, next);
    }
  }

  lemma LeafReads(f: (Hash, Hash) -> Hash, pos: nat, txids: seq<Hash>, marks: seq<bool>, s: Stored, bit: nat, next: nat)
    requires |marks| == |txids| && Node(|txids|, 0, pos)
    requires StandsAt(Build(f, 0, pos, txids, marks), s, bit, next)
    ensures Extract(f, |txids|, 0, pos, s, bit, next)
            == Read(CalcHash(f, 0, pos, txids), bit + 1, next + 1, Marked(Under(txids, 0, pos), Under(marks, 0, pos)), false)
    ensures var b := Build(f, 0, pos, txids, marks); |b.bits| == |b.hashes| == 1
  {
    UnderLeaf(txids, pos);
    UnderLeaf(marks, pos);
    var b := Build(f, 0, pos, txids, marks);
    assert s.bits[bit] == b.bits[0] && s.hashes[next] == b.hashes[0];
    assert b.bits[0] == marks[pos] && b.hashes[0] == txids[pos];
  }

  /** Where a node with marked transactions below stands, its children stand, left then right. */
  lemma ChildrenStand(f: (Hash, Hash) -> Hash, h: nat, pos: nat, txids: seq<Hash>, marks: seq<bool>, s: Stored, bit: nat, next: nat)
    requires h > 0 && |marks| == |txids| && Node(|txids|, h, pos) && true in Under(marks, h, pos)
    requires StandsAt(Build(f, h, pos, txids, marks), s, bit, next)
    ensures bit < |s.bits| && s.bits[bit] && Node(|txids|, h - 1, 2 * pos)
    ensures var b := Build(f, h, pos, txids, marks); var left := Build(f, h - 1, 2 * pos, txids, marks);
            && StandsAt(left, s, bit + 1, next)
            && if Node(|txids|, h - 1, 2 * pos + 1) then
                 var right := Build(f, h - 1, 2 * pos + 1, txids, marks);
                 && StandsAt(right, s, bit + 1 + |left.bits|, next + |left.hashes|)
                 && |b.bits| == 1 + |left.bits| + |right.bits| && |b.hashes| == |left.hashes| + |right.hashes|
               else |b.bits| == 1 + |left.bits| && |b.hashes| == |left.hashes|
  {
    hide First, Under, Past, Pow2, Node, CalcHash, Build;
    BuildOfInner(f, h, pos, txids, marks);
    var b := Build(f, h, pos, txids, marks);
    var left := Build(f, h - 1, 2 * pos, txids, marks);
    assert s.bits[bit] == b.bits[0];
    if Node(|txids|, h - 1, 2 * pos + 1) {
      var right := Build(f, h - 1, 2 * pos + 1, txids, marks);
      StandsJoin(Stored([true], []), Join(left, right), s, bit, next);
      StandsJoin(left, right, s, bit + 1, next);
    } else {
      StandsJoin(Stored([true], []), left, s, bit, next);
    }
  }

  lemma ExtractOfInner(f: (Hash, Hash) -> Hash, n: nat, h: nat, pos: nat, s: Stored, bit: nat, next: nat)
    requires h > 0 && bit < |s.bits| && s.bits[bit]
    ensures var left := Extract(f, n, h - 1, 2 * pos, s, bit + 1, next);
            Extract(f, n, h, pos, s, bit, next) ==
              if Node(n, h - 1, 2 * pos + 1) then
                var right := Extract(f, n, h - 1, 2 * pos + 1, s, left.bit, left.next);
                Read(f(left.hash, right.hash), right.bit, right.next, left.found + right.found, left.bad || right.bad)
              else left.(hash := f(left.hash, left.hash))
  {
  }

  lemma CalcOfInner(f: (Hash, Hash) -> Hash, h: nat, pos: nat, txids: seq<Hash>)
    requires h > 0 && Node(|txids|, h, pos)
    ensures Node(|txids|, h - 1, 2 * pos)
    ensures var left := CalcHash(f, h - 1, 2 * pos, txids);
            CalcHash(f, h, pos, txids)
            == f(left, if Node(|txids|, h - 1, 2 * pos + 1) then CalcHash(f, h - 1, 2 * pos + 1, txids) else left)
  {
    Children(|txids|, h, pos);
  }

  lemma {:induction false} InnerReads(f: (Hash, Hash) -> Hash, h: nat, pos: nat, txids: seq<Hash>, marks: seq<bool>,
                                      s: Stored, bit: nat, next: nat)
    requires h > 0 && |marks| == |txids| && Node(|txids|, h, pos) && true in Under(marks, h, pos)
    requires StandsAt(Build(f, h, pos, txids, marks), s, bit, next)
    ensures var b := Build(f, h, pos, txids, marks);
            Extract(f, |txids|, h, pos, s, bit, next)
            == Read(CalcHash(f, h, pos, txids), bit + |b.bits|, next + |b.hashes|, Marked(Under(txids, h, pos), Under(marks, h, pos)), false)
    decreases h, 0
  {
    hide Marked, First, Under, Past, Pow2, Node, Build, Extract, CalcHash, StandsAt;
    UnderChildren(txids, h, pos);
    UnderChildren(marks, h, pos);
    ChildrenStand(f, h, pos, txids, marks, s, bit, next);
    ExtractOfInner(f, |txids|, h, pos, s, bit, next);
    CalcOfInner(f, h, pos, txids);
    var left := Build(f, h - 1, 2 * pos, txids, marks);
    ExtractReadsBuild(f, h - 1, 2 * pos, txids, marks, s, bit + 1, next);
    if Node(|txids|, h - 1, 2 * pos + 1) {
      ExtractReadsBuild(f, h - 1, 2 * pos + 1, txids, marks, s, bit + 1 + |left.bits|, next + |left.hashes|);
      MarkedJoin(Under(txids, h - 1, 2 * pos), Under(marks, h - 1, 2 * pos),
                 Under(txids, h - 1, 2 * pos + 1), Under(marks, h - 1, 2 * pos + 1));
    } else {
      assert Under(txids, h, pos) == Under(txids, h - 1, 2 * pos) && Under(marks, h, pos) == Under(marks, h - 1, 2 * pos);
    }
  }

  /**
   Round trip: for every block within the size bound and every choice of transactions, what is
   written reads back as the block's root and exactly the chosen ids in order, whatever up to seven
   bits pad it to whole bytes.
   */
  lemma RoundTrip(f: (Hash, Hash) -> Hash, txids: seq<Hash>, marks: seq<bool>, padding: seq<bool>)
    requires 0 < |txids| <= MAX_BLOCK_SIZE_CURRENT / 60 && |marks| == |txids|
    requires var b := BuildAll(f, txids, marks); (|b.bits| + 7) / 8 == (|b.bits| + |padding| + 7) / 8
    ensures var b := BuildAll(f, txids, marks);
            ExtractMatches(f, |txids|, Stored(b.bits + padding, b.hashes)) == Matches(Root(f, txids), Marked(txids, marks))
  {
    var b := BuildAll(f, txids, marks);
    var s := Stored(b.bits + padding, b.hashes);
    hide Build, Extract, CalcHash, Under;
    RootSpansAll(txids);
    RootSpansAll(marks);
    BuildIsSmall(f, Height(|txids|), 0, txids, marks);
    assert StandsAt(b, s, 0, 0);
    ExtractReadsBuild(f, Height(|txids|), 0, txids, marks, s, 0, 0);
  }

  // ---------- soundness ----------

  ghost predicate PairInjective(f: (Hash, Hash) -> Hash) {
    forall a, b, c, d | f(a, b) == f(c, d) :: a == c && b == d
  }

  /** If a traversal arrives at the node's true hash, what it found are transactions under the node, in order. */
  lemma {:induction false} FoundAreUnder(f: (Hash, Hash) -> Hash, h: nat, pos: nat, txids: seq<Hash>, s: Stored, bit: nat, next: nat)
    returns (marks: seq<bool>)
    requires PairInjective(f) && Node(|txids|, h, pos)
    requires var r := Extract(f, |txids|, h, pos, s, bit, next); !r.bad && r.hash == CalcHash(f, h, pos, txids)
    ensures |marks| == |Under(txids, h, pos)|
    ensures Extract(f, |txids|, h, pos, s, bit, next).found == Marked(Under(txids, h, pos), marks)
    decreases h
  {
    var found := Extract(f, |txids|, h, pos, s, bit, next).found;
    if h > 0 && s.bits[bit] {
      marks := FoundUnderInner(f, h, pos, txids, s, bit, next);
    } else if h > 0 {
      marks := seq(|Under(txids, h, pos)|, _ => false);
      NoneMarked(Under(txids, h, pos), marks);
    } else {
      marks := [s.bits[bit]];
      UnderLeaf(txids, pos);
    }
  }

  lemma {:induction false} FoundUnderInner(f: (Hash, Hash) -> Hash, h: nat, pos: nat, txids: seq<Hash>, s: Stored, bit: nat, next: nat)
    returns (marks: seq<bool>)
    requires PairInjective(f) && h > 0 && Node(|txids|, h, pos) && bit < |s.bits| && s.bits[bit]
    requires var r := Extract(f, |txids|, h, pos, s, bit, next); !r.bad && r.hash == CalcHash(f, h, pos, txids)
    ensures |marks| == |Under(txids, h, pos)|
    ensures Extract(f, |txids|, h, pos, s, bit, next).found == Marked(Under(txids, h, pos), marks)
    decreases h, 0
  {
    hide Marked, First, Under, Past, Pow2, Node, Extract, CalcHash;
    ExtractOfInner(f, |txids|, h, pos, s, bit, next);
    CalcOfInner(f, h, pos, txids);
    UnderChildren(txids, h, pos);
    var left := Extract(f, |txids|, h - 1, 2 * pos, s, bit + 1, next);
    marks := FoundAreUnder(f, h - 1, 2 * pos, txids, s, bit + 1, next);
    if Node(|txids|, h - 1, 2 * pos + 1) {
      var more := FoundAreUnder(f, h - 1, 2 * pos + 1, txids, s, left.bit, left.next);
      MarkedJoin(Under(txids, h - 1, 2 * pos), marks, Under(txids, h - 1, 2 * pos + 1), more);
      marks := marks + more;
    } else {
      assert Under(txids, h, pos) == Under(txids, h - 1, 2 * pos);
    }
  }

  /** The checks before and after the traversal are passed. */
  predicate Succeeds(f: (Hash, Hash) -> Hash, n: nat, s: Stored) {
    && 0 < n <= MAX_BLOCK_SIZE_CURRENT / 60 && |s.hashes| <= n && |s.hashes| <= |s.bits|
    && var r := Extract(f, n, Height(n), 0, s, 0, 0);
       !r.bad && (r.bit + 7) / 8 == (|s.bits| + 7) / 8 && r.next == |s.hashes|
  }

  /**
   Soundness: whatever bits and hashes are supplied for the right number of transactions, if the
   block's true root comes out, and not because it is the zero that stands for failure, the ids
   found are some of the block's transactions, in block order.
   */
  lemma Soundness(f: (Hash, Hash) -> Hash, txids: seq<Hash>, s: Stored) returns (marks: seq<bool>)
    requires PairInjective(f) && |txids| > 0 && (Root(f, txids) != ZERO || Succeeds(f, |txids|, s))
    requires ExtractMatches(f, |txids|, s).root == Root(f, txids)
    ensures |marks| == |txids| && ExtractMatches(f, |txids|, s).found == Marked(txids, marks)
  {
    RootSpansAll(txids);
    hide Extract, CalcHash, Under;
    marks := FoundAreUnder(f, Height(|txids|), 0, txids, s, 0, 0);
  }

  /** The result alone vouches for the ids found exactly if the true root is not zero. */
  lemma RootVouchesIffNotZero(f: (Hash, Hash) -> Hash, txids: seq<Hash>)
    requires PairInjective(f) && 0 < |txids| <= MAX_BLOCK_SIZE_CURRENT / 60
    ensures Root(f, txids) != ZERO <==> forall s | ExtractMatches(f, |txids|, s).root == Root(f, txids) :: AreSome(ExtractMatches(f, |txids|, s).found, txids)
  {
    hide ExtractMatches, Root;
    if Root(f, txids) != ZERO {
      forall s | ExtractMatches(f, |txids|, s).root == Root(f, txids) ensures AreSome(ExtractMatches(f, |txids|, s).found, txids) {
        var marks := Soundness(f, txids, s);
      }
    } else {
      var other := seq(|txids|, _ => Unused(txids));
      var s := FailsWith(f, other);
      NotSome(other, txids);
    }
  }

  /** Some of a block's ids, in order. */
  ghost predicate AreSome(found: seq<Hash>, txids: seq<Hash>) {
    exists marks: seq<bool> :: |marks| == |txids| && found == Marked(txids, marks)
  }

  function Unused(txids: seq<Hash>): (x: Hash)
    ensures forall id | id in txids :: id < x
  {
    if txids == [] then 0 else
      assert txids == [txids[0]] + txids[1..];
      var x := Unused(txids[1..]);
      if txids[0] < x then x else txids[0] + 1
  }

  lemma {:induction false} MarkedAreIn(txids: seq<Hash>, marks: seq<bool>)
    requires |txids| == |marks|
    ensures forall id | id in Marked(txids, marks) :: id in txids
    decreases |txids|
  {
    if txids != [] {
      MarkedAreIn(txids[1..], marks[1..]);
    }
  }

  lemma NotSome(other: seq<Hash>, txids: seq<Hash>)
    requires other != [] && other[0] == Unused(txids)
    ensures !AreSome(other, txids)
  {
    forall marks: seq<bool> | |marks| == |txids| ensures other != Marked(txids, marks) {
      MarkedAreIn(txids, marks);
      assert other[0] !in txids;
    }
  }

  lemma {:induction false} AllMarked(txids: seq<Hash>)
    ensures Marked(txids, seq(|txids|, _ => true)) == txids
    decreases |txids|
  {
    if txids != [] {
      AllMarked(txids[1..]);
      assert seq(|txids|, _ => true)[1..] == seq(|txids| - 1, _ => true);
    }
  }

  /** With a byte of bits too many a traversal fails after it has found all its ids. */
  lemma FailsWith(f: (Hash, Hash) -> Hash, txids: seq<Hash>) returns (s: Stored)
    requires 0 < |txids| <= MAX_BLOCK_SIZE_CURRENT / 60
    ensures ExtractMatches(f, |txids|, s) == Matches(ZERO, txids)
  {
    var marks := seq(|txids|, _ => true);
    var b := BuildAll(f, txids, marks);
    s := Stored(b.bits + seq(8, _ => false), b.hashes);
    hide Build, Extract, CalcHash, Under, Marked;
    RootSpansAll(txids);
    RootSpansAll(marks);
    BuildIsSmall(f, Height(|txids|), 0, txids, marks);
    assert StandsAt(b, s, 0, 0);
    ExtractReadsBuild(f, Height(|txids|), 0, txids, marks, s, 0, 0);
    AllMarked(txids);
  }
}
