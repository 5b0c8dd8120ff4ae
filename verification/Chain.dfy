/** CChain: the active chain indexed by height, and the locator that summarises it. */
module Chain {
  import opened Arithmetic
  import opened Primitives
  import opened BlockIndexes

  // ---------- the shape of a locator ----------

  /** The heights listed from h down, when n are already listed and the next step back is `step`. */
  function LocatorHeights(h: nat, n: nat, step: nat): (r: seq<nat>)
    requires step > 0
    ensures r != [] && r[0] == h && r[|r| - 1] == 0
    decreases h
  {
    if h == 0 then [0] else
      [h] + LocatorHeights(if h > step then h - step else 0, n + 1, if n + 1 > 10 then 2 * step else step)
  }

  function Log2(n: nat): nat
    requires n > 0
  {
    if n == 1 then 0 else 1 + Log2(n / 2)
  }

  lemma {:induction false} Log2Bounds(n: nat)
    requires n > 0
    ensures Pow2(Log2(n)) <= n < Pow2(Log2(n) + 1)
    decreases n
  {
    if n > 1 {
      Log2Bounds(n / 2);
    }
  }

  lemma LocatorEnd(n: nat, step: nat)
    requires step > 0
    ensures LocatorHeights(0, n, step) == [0]
  {
  }

  lemma LocatorStep(h: nat, n: nat, step: nat)
    requires step > 0 && h > 0
    ensures LocatorHeights(h, n, step)
            == [h] + LocatorHeights(if h > step then h - step else 0, n + 1, if n + 1 > 10 then 2 * step else step)
  {
  }

  ghost predicate Descends(r: seq<nat>) { forall i, j | 0 <= i < j < |r| :: r[i] > r[j] }

  lemma DescendsFrom(h: nat, tail: seq<nat>)
    requires Descends(tail) && (tail != [] ==> h > tail[0])
    ensures Descends([h] + tail)
  {
    var r := [h] + tail;
    assert forall i | 0 < i < |r| :: r[i] == tail[i - 1] <= tail[0];
  }

  lemma {:induction false} HeightsDescend(h: nat, n: nat, step: nat)
    requires step > 0
    ensures Descends(LocatorHeights(h, n, step))
    decreases h
  {
    if h > 0 {
      LocatorStep(h, n, step);
      HeightsDescend(if h > step then h - step else 0, n + 1, if n + 1 > 10 then 2 * step else step);
      DescendsFrom(h, LocatorHeights(h, n, step)[1..]);
    }
  }

  /** How far back k doubling steps reach. */
  function Reach(step: nat, k: nat): nat { step * (Pow2(k) - 1) }

  lemma ReachStep(step: nat, k: nat)
    ensures Reach(step, 0) == 0 && Reach(step, k + 1) == step + Reach(2 * step, k)
  {
    var p := Pow2(k);
    assert step * (2 * p - 1) == step * 2 * p - step;
    assert 2 * step * (p - 1) == 2 * step * p - 2 * step;
  }

  lemma {:induction false} DoublingReaches(h: nat, n: nat, step: nat, k: nat)
    requires step > 0 && n >= 10 && h <= Reach(step, k)
    ensures |LocatorHeights(h, n, step)| <= k + 1
    decreases k
  {
    hide Reach, Pow2;
    ReachStep(step, if k > 0 then k - 1 else 0);
    if h > 0 {
      DoublingReaches(if h > step then h - step else 0, n + 1, 2 * step, k - 1);
    }
  }

  /** The first ten steps go back one block each. */
  lemma {:induction false} SingleSteps(h: nat, n: nat, k: nat)
    requires n <= 10 && h + n < 10 + Pow2(k)
    ensures |LocatorHeights(h, n, 1)| <= 11 - n + k
    decreases 10 - n
  {
    if n == 10 {
      assert Reach(1, k) == Pow2(k) - 1;
      DoublingReaches(h, n, 1, k);
    } else if h > 0 {
      SingleSteps(h - 1, n + 1, k);
    }
  }

  /** Ten single steps, then doubling ones: at most twelve entries more than the logarithm of the height. */
  lemma LocatorIsShort(h: nat)
    requires h > 0
    ensures |LocatorHeights(h, 0, 1)| <= 12 + Log2(h)
  {
    Log2Bounds(h);
    SingleSteps(h, 0, Log2(h) + 1);
  }

  function Below(h: nat, back: nat): nat { if h > back then h - back else 0 }

  lemma {:induction false} DoublingAt(h: nat, n: nat, step: nat, i: nat)
    requires step > 0 && n >= 10 && i < |LocatorHeights(h, n, step)|
    ensures LocatorHeights(h, n, step)[i] == Below(h, Reach(step, i))
    decreases i
  {
    hide Reach, Pow2;
    ReachStep(step, if i > 0 then i - 1 else 0);
    if h > 0 && i > 0 {
      LocatorStep(h, n, step);
      DoublingAt(if h > step then h - step else 0, n + 1, 2 * step, i - 1);
    }
  }

  lemma {:induction false} SingleAt(h: nat, n: nat, i: nat)
    requires n <= 10 && i < |LocatorHeights(h, n, 1)|
    ensures LocatorHeights(h, n, 1)[i] == if i <= 10 - n then Below(h, i) else Below(h, 10 - n + Reach(1, i - (10 - n)))
    decreases 10 - n
  {
    hide Reach;
    if n == 10 {
      DoublingAt(h, n, 1, i);
      ReachStep(1, 0);
    } else if h > 0 && i > 0 {
      LocatorStep(h, n, 1);
      SingleAt(h - 1, n + 1, i - 1);
    }
  }

  /** Entry i is i blocks back up to the tenth; from then on entry 10 + k is 9 and 2 to the k back. The list ends at genesis. */
  lemma LocatorEntry(h: nat, i: nat)
    requires i < |LocatorHeights(h, 0, 1)|
    ensures LocatorHeights(h, 0, 1)[i] == Below(h, if i <= 10 then i else 9 + Pow2(i - 10))
    ensures LocatorHeights(h, 0, 1)[i] == 0 <==> i == |LocatorHeights(h, 0, 1)| - 1
  {
    SingleAt(h, 0, i);
    HeightsDescend(h, 0, 1);
    if i > 10 {
      assert Reach(1, i - 10) == Pow2(i - 10) - 1;
    }
  }

  /** The values of the step on the way, the last one included. */
  function LocatorSteps(h: nat, n: nat, step: nat): seq<nat>
    requires step > 0
    decreases h
  {
    if h == 0 then [step] else
      [step] + LocatorSteps(if h > step then h - step else 0, n + 1, if n + 1 > 10 then 2 * step else step)
  }

  lemma LocatorStepsStep(h: nat, n: nat, step: nat)
    requires step > 0
    ensures LocatorSteps(0, n, step) == [step]
    ensures h > 0 ==>
              LocatorSteps(h, n, step) == [step] + LocatorSteps(if h > step then h - step else 0, n + 1, if n + 1 > 10 then 2 * step else step)
  {
  }

  /** The k-th height and step, and the lists from there on. */
  lemma NextEntry(heights: seq<nat>, allSteps: seq<nat>, steps: seq<nat>, k: nat, h: nat, step: nat)
    requires step > 0 && k < |heights| && heights[k..] == LocatorHeights(h, k, step) && allSteps == steps + LocatorSteps(h, k, step)
    ensures heights[k] == h && if h == 0 then |heights| == k + 1 && allSteps == steps + [step] else
              var h', step' := if h > step then h - step else 0, if k + 1 > 10 then 2 * step else step;
              && k + 1 < |heights| && heights[k + 1..] == LocatorHeights(h', k + 1, step')
              && allSteps == steps + [step] + LocatorSteps(h', k + 1, step')
  {
    hide LocatorHeights, LocatorSteps;
    assert heights[k..][0] == heights[k] && heights[k..][1..] == heights[k + 1..];
    LocatorStepsStep(h, k, step);
    if h > 0 {
      LocatorStep(h, k, step);
    } else {
      LocatorEnd(k, step);
    }
  }

  lemma AllStepsAreSmall(h: nat)
    ensures forall step | step in LocatorSteps(h, 0, 1) :: step <= 1 || step <= 2 * h
  {
    forall step | step in LocatorSteps(h, 0, 1) ensures step <= 1 || step <= 2 * h {
      var i :| 0 <= i < |LocatorSteps(h, 0, 1)| && LocatorSteps(h, 0, 1)[i] == step;
      StepsAreSmall(h, 0, 1, i);
    }
  }

  /** No step exceeds twice the height, so below 2^30 none overflows. */
  lemma {:induction false} StepsAreSmall(h: nat, n: nat, step: nat, i: nat)
    requires step > 0 && i < |LocatorSteps(h, n, step)|
    ensures LocatorSteps(h, n, step)[i] <= if h == 0 then step else 2 * (h + step - 1)
    decreases h
  {
    if h > 0 && i > 0 {
      StepsAreSmall(if h > step then h - step else 0, n + 1, if n + 1 > 10 then 2 * step else step, i - 1);
    }
  }

  // ---------- the chain ----------

  class CChain {
    var vChain: seq<BlockIndex?>

    /** Every stored entry is the tip's ancestor at its height. */
    ghost predicate Leads(tip: BlockIndex)
      reads this
    {
      && Linked(tip) && |vChain| == tip.height + 1
      && forall h | 0 <= h <= tip.height :: vChain[h] == Ancestor(tip, h)
    }

    ghost predicate Valid()
      reads this
    {
      vChain == [] || (vChain[|vChain| - 1] != null && Leads(vChain[|vChain| - 1]))
    }

    constructor ()
      ensures Valid() && vChain == []
    {
      vChain := [];
    }

    function Tip(): BlockIndex?
      reads this
    {
      if vChain == [] then null else vChain[|vChain| - 1]
    }

    function At(h: int): BlockIndex?
      reads this
    {
      if h < 0 || h >= |vChain| then null else vChain[h]
    }

    predicate Contains(b: BlockIndex)
      reads this
    {
      At(b.height) == b
    }

    function Height(): int
      reads this
    {
      |vChain| - 1
    }

    /** The height is that of the tip, and -1 without one. */
    lemma HeightIsTips()
      requires Valid()
      ensures Height() == if Tip() == null then -1 else Tip().height
    {
    }

    function Next(b: BlockIndex): BlockIndex?
      reads this
    {
      if Contains(b) then At(b.height + 1) else null
    }

    /** The block after another on a chain is the one whose parent it is; the tip and blocks elsewhere have none. */
    lemma NextIsChild(b: BlockIndex)
      requires Valid() && Linked(b)
      ensures Next(b) != null <==> Contains(b) && b != Tip()
      ensures Next(b) != null ==> Next(b).prev == b && Contains(Next(b))
    {
      if Contains(b) && b.height + 1 < |vChain| {
        AncestorOfAncestor(Tip(), b.height + 1, b.height);
      }
    }

    /** Writes ancestors downwards until one is already in place, at height `stop`. */
    method FillDown(tip: BlockIndex) returns (ghost stop: int)
      requires Linked(tip) && |vChain| == tip.height + 1
      modifies this
      ensures |vChain| == tip.height + 1 && -1 <= stop <= tip.height
      ensures forall h | stop < h <= tip.height :: vChain[h] == Ancestor(tip, h)
      ensures forall h | 0 <= h <= stop :: vChain[h] == old(vChain)[h]
      ensures stop >= 0 ==> vChain[stop] == Ancestor(tip, stop)
    {
      hide Ancestor, Linked;
      AncestorOfSelf(tip);
      var walk: BlockIndex? := tip;
      stop := tip.height;
      while walk != null && vChain[walk.height] != walk
        invariant |vChain| == tip.height + 1 && -1 <= stop <= tip.height
        invariant if walk == null then stop == -1 else stop == walk.height && walk == Ancestor(tip, stop)
        invariant forall h | stop < h <= tip.height :: vChain[h] == Ancestor(tip, h)
        invariant forall h | 0 <= h <= stop :: vChain[h] == old(vChain)[h]
        decreases stop + 1
      {
        vChain := vChain[walk.height := walk];
        ParentOfAncestor(tip, walk.height);
        walk := walk.prev;
        stop := stop - 1;
      }
    }

    /**
     After SetTip every height up to the new tip's holds its ancestor, although the loop stops at
     the first block already in place.
     */
    method SetTip(tip: BlockIndex?)
      requires Valid() && (tip != null ==> Linked(tip))
      modifies this
      ensures Valid() && if tip == null then vChain == [] else Leads(tip)
    {
      hide Ancestor, Linked;
      if tip == null {
        vChain := [];
        return;
      }
      ghost var was := vChain;
      var n := tip.height + 1;
      vChain := if n <= |vChain| then vChain[..n] else vChain + seq(n - |vChain|, _ => null);
      ghost var stop := FillDown(tip);
      AncestorOfSelf(tip);
      if stop >= 0 {
        assert stop < |was|;
        MeetingBlocks(tip, was[|was| - 1], stop);
      }
    }

    /** The highest ancestor of a block that lies on the chain; null if there is none. */
    method FindFork(b: BlockIndex) returns (fork: BlockIndex?)
      requires Valid() && Linked(b)
      ensures fork == null ==> forall h | 0 <= h <= b.height :: !Contains(Ancestor(b, h))
      ensures fork != null ==> fork.height <= b.height && fork == Ancestor(b, fork.height) && Contains(fork)
      ensures fork != null ==> forall h | fork.height < h <= b.height :: !Contains(Ancestor(b, h))
    {
      hide Ancestor, Linked;
      AncestorOfSelf(b);
      fork := b;
      if b.height > Height() {
        fork := b.GetAncestor(Height());
      }
      while fork != null && !Contains(fork)
        invariant fork != null ==> fork.height <= b.height && fork == Ancestor(b, fork.height)
        invariant forall h | (if fork == null then 0 else fork.height + 1) <= h <= b.height :: !Contains(Ancestor(b, h))
        decreases if fork == null then 0 else fork.height + 1
      {
        ParentOfAncestor(b, fork.height);
        fork := fork.prev;
      }
    }

    /** By the chain's index if the block is on it, otherwise by the skip pointers. */
    method StepBack(b: BlockIndex, height: nat) returns (a: BlockIndex)
      requires Valid() && Linked(b) && height <= b.height
      ensures a == Ancestor(b, height)
    {
      hide Ancestor, Linked;
      if Contains(b) {
        AncestorOfAncestor(Tip(), b.height, height);
        a := At(height);
      } else {
        a := b.GetAncestor(height);
      }
    }

    /**
     The hashes of a block and of ever sparser ancestors of it, down to the genesis block; `steps`
     are the values of nStep, none of which exceeds twice the height.
     */
    method ListFrom(start: BlockIndex) returns (vHave: seq<Hash>, ghost steps: seq<nat>)
      requires Valid() && Linked(start)
      ensures var heights := LocatorHeights(start.height, 0, 1);
              && |vHave| == |heights|
              && forall i | 0 <= i < |vHave| :: heights[i] <= start.height && vHave[i] == Ancestor(start, heights[i]).hash
      ensures steps == LocatorSteps(start.height, 0, 1) && forall step | step in steps :: step <= 1 || step <= 2 * start.height
    {
      hide LocatorHeights, LocatorSteps, Linked, Ancestor, Valid;
      var walk := start;
      var step := 1;
      vHave, steps := [], [];
      ghost var heights, allSteps := LocatorHeights(start.height, 0, 1), LocatorSteps(start.height, 0, 1);
      assert heights[0..] == heights && allSteps == [] + allSteps;
      AncestorOfSelf(start);
      AllStepsAreSmall(start.height);
      while true
        invariant walk.height <= start.height && walk == Ancestor(start, walk.height) && step > 0
        invariant |vHave| < |heights| && heights[|vHave|..] == LocatorHeights(walk.height, |vHave|, step)
        invariant forall i | 0 <= i < |vHave| :: heights[i] <= start.height && vHave[i] == Ancestor(start, heights[i]).hash
        invariant allSteps == steps + LocatorSteps(walk.height, |vHave|, step)
        decreases walk.height
      {
        NextEntry(heights, allSteps, steps, |vHave|, walk.height, step);
        steps := steps + [step];
        vHave := vHave + [walk.hash];
        if walk.height == 0 {
          break;
        }
        var height := if walk.height > step then walk.height - step else 0;
        AncestorOfAncestor(start, walk.height, height);
        walk := StepBack(walk, height);
        if |vHave| > 10 {
          step := step * 2;
        }
      }
    }

    /** From the block given, or the tip. */
    method GetLocator(from: BlockIndex?) returns (vHave: seq<Hash>)
      requires Valid() && (from != null ==> Linked(from))
      ensures var start := if from == null then Tip() else from;
              if start == null then vHave == []
              else
                var heights := LocatorHeights(start.height, 0, 1);
                && |vHave| == |heights|
                && forall i | 0 <= i < |vHave| :: heights[i] <= start.height && vHave[i] == Ancestor(start, heights[i]).hash
    {
      vHave := [];
      var walk := from;
      if walk == null {
        walk := Tip();
      }
      if walk != null {
        ghost var steps;
        vHave, steps := ListFrom(walk);
      }
    }
  }
}
