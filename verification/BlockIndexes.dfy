/** Block index entries: each names its parent, and one farther ancestor to skip to. */
module BlockIndexes {
  import opened Arithmetic
  import opened Primitives

  /** n & (n - 1): the lowest bit turned off. */
  function InvertLowestOne(n: nat): (r: nat)
    ensures r <= n && (n > 0 ==> r < n)
  {
    if n == 0 then 0 else if n % 2 == 1 then n - 1 else 2 * InvertLowestOne(n / 2)
  }

  lemma TwiceTimes(a: nat, p: nat)
    ensures a * (2 * p) == 2 * (a * p)
  {
  }

  /** An odd number times a power of two loses that power. */
  lemma {:induction false} LowestOneIsOff(q: nat, k: nat)
    ensures InvertLowestOne((2 * q + 1) * Pow2(k)) == 2 * q * Pow2(k)
    decreases k
  {
    if k > 0 {
      LowestOneIsOff(q, k - 1);
      OneHigher(2 * q + 1, 2 * q, Pow2(k - 1));
    }
  }

  lemma OneHigher(odd: nat, even: nat, p: nat)
    requires odd > 0 && p > 0 && InvertLowestOne(odd * p) == even * p
    ensures InvertLowestOne(odd * (2 * p)) == even * (2 * p)
  {
    hide InvertLowestOne;
    TwiceTimes(odd, p);
    TwiceTimes(even, p);
    MulGrows(1, odd, 1, p);
    DoubleKeeps(odd * p);
  }

  lemma DoubleKeeps(n: nat)
    requires n > 0
    ensures InvertLowestOne(2 * n) == 2 * InvertLowestOne(n)
  {
  }

  /** Some skip heights. */
  lemma SkipsOf()
    ensures SkipHeight(0) == 0 && SkipHeight(1) == 0 && SkipHeight(2) == 0 && SkipHeight(3) == 1
    ensures SkipHeight(6) == 4 && SkipHeight(7) == 1 && SkipHeight(12) == 8 && SkipHeight(15) == 9
  {
  }

  /** The height to skip to: any lower one will do. */
  function SkipHeight(height: nat): (r: nat)
    ensures height > 0 ==> r < height
  {
    if height < 2 then 0
    else if height % 2 == 1 then InvertLowestOne(InvertLowestOne(height - 1)) + 1
    else InvertLowestOne(height)
  }

  /** Heights count back to the genesis block, and the skip pointer leads to the ancestor at the skip height. */
  ghost predicate Linked(b: BlockIndex)
    decreases b.height, 0
  {
    if b.height == 0 then b.prev == null
    else
      b.prev != null && b.prev.height == b.height - 1 && Linked(b.prev)
      && b.skip == Ancestor(b.prev, SkipHeight(b.height))
  }

  ghost function Ancestor(b: BlockIndex, h: nat): (a: BlockIndex)
    requires Linked(b) && h <= b.height
    ensures a.height == h && Linked(a)
    decreases b.height, 1
  {
    if h == b.height then b else Ancestor(b.prev, h)
  }

  lemma AncestorOfSelf(b: BlockIndex)
    requires Linked(b)
    ensures Ancestor(b, b.height) == b
  {
  }

  lemma {:induction false} AncestorOfAncestor(b: BlockIndex, h: nat, g: nat)
    requires Linked(b) && g <= h <= b.height
    ensures Ancestor(Ancestor(b, h), g) == Ancestor(b, g)
    decreases b.height
  {
    if h < b.height {
      AncestorOfAncestor(b.prev, h, g);
    }
  }

  lemma ParentOfAncestor(b: BlockIndex, h: nat)
    requires Linked(b) && h <= b.height
    ensures if h == 0 then Ancestor(b, h).prev == null else Ancestor(b, h).prev == Ancestor(b, h - 1)
  {
    if h > 0 {
      AncestorOfAncestor(b, h, h - 1);
    }
  }

  /** Blocks that meet at some height have the same ancestors below it. */
  lemma MeetingBlocks(a: BlockIndex, b: BlockIndex, h: nat)
    requires Linked(a) && Linked(b) && h <= a.height && h <= b.height && Ancestor(a, h) == Ancestor(b, h)
    ensures forall k | 0 <= k <= h :: Ancestor(a, k) == Ancestor(b, k)
  {
    forall k | 0 <= k <= h ensures Ancestor(a, k) == Ancestor(b, k) {
      AncestorOfAncestor(a, h, k);
      AncestorOfAncestor(b, h, k);
    }
  }

  class BlockIndex {
    const height: nat
    const prev: BlockIndex?
    const skip: BlockIndex?
    const hash: Hash

    /** A new entry on top of another, with its skip pointer built. */
    constructor (prev: BlockIndex?, hash: Hash)
      requires prev != null ==> Linked(prev)
      ensures this.prev == prev && this.hash == hash && Linked(this)
    {
      this.prev, this.hash := prev, hash;
      if prev == null {
        height, skip := 0, null;
      } else {
        height := prev.height + 1;
        var far := prev.GetAncestor(SkipHeight(prev.height + 1));
        skip := far;
      }
    }

    /** Follows skip pointers where they do not overshoot; null outside the heights there are. */
    method GetAncestor(target: int) returns (a: BlockIndex?)
      requires Linked(this)
      ensures if 0 <= target <= height then a == Ancestor(this, target) else a == null
    {
      if target > height || target < 0 {
        return null;
      }
      var walk: BlockIndex := this;
      var heightWalk := height;
      while heightWalk > target
        invariant target <= heightWalk <= height && walk == Ancestor(this, heightWalk)
      {
        var heightSkip := SkipHeight(heightWalk);
        var heightSkipPrev := SkipHeight(heightWalk - 1);
        AncestorOfAncestor(this, heightWalk, heightWalk - 1);
        if heightSkip == target || (heightSkip > target && !(heightSkipPrev < heightSkip - 2 && heightSkipPrev >= target)) {
          AncestorOfAncestor(this, heightWalk - 1, heightSkip);
          walk := walk.skip;
          heightWalk := heightSkip;
        } else {
          walk := walk.prev;
          heightWalk := heightWalk - 1;
        }
      }
      a := walk;
    }
  }
}
