/** The loops that choose mints, each computing the function the choice is proved about. */
module MintSelection {
  import opened Arithmetic
  import opened Wrappers
  import opened Denominations
  import opened LeastChange
  import opened Change

  /** A mint in the wallet: the index of its denomination (past the list for none) and whether it is spent. */
  datatype Mint = Mint(denomination: nat, isUsed: bool)

  // ---------- counts taken from the highest denomination down ----------

  lemma GreedyPrefix(ds: seq<nat>, held: Counts, k: nat, t: int)
    requires |ds| == |held| && Positive(ds) && k < |ds|
    ensures var g := Take(held[k], t, ds[k]);
            Greedy(ds[..k + 1], held[..k + 1], t) == Greedy(ds[..k], held[..k], t - Worth(g, ds[k])) + [g]
  {
    assert ds[..k + 1][..k] == ds[..k] && held[..k + 1][..k] == held[..k];
    GreedyStep(ds[..k + 1], held[..k + 1], t);
  }

  lemma TakeOne(held: nat, t: int, d: nat)
    requires d > 0
    ensures Take(held, t, d) == if t >= d && held > 0 then Take(held - 1, t - d, d) + 1 else 0
  {
  }

  method GetSpendCoins(ds: seq<nat>, t: int, held: Counts) returns (used: Counts)
    requires |ds| == |held| && Positive(ds)
    ensures used == Greedy(ds, held, t)
  {
    hide Take, Worth, Greedy;
    used := Zeros(|ds|);
    var remaining := t;
    var k := |ds|;
    assert ds[..k] == ds && held[..k] == held && used[k..] == [];
    while k > 0
      invariant 0 <= k <= |ds| == |used| && forall i | 0 <= i < k :: used[i] == 0
      invariant Greedy(ds, held, t) == Greedy(ds[..k], held[..k], remaining) + used[k..]
    {
      k := k - 1;
      GreedyPrefix(ds, held, k, remaining);
      ghost var t0, before := remaining, used;
      WorthOfNone(ds[k]);
      while remaining >= ds[k] && used[k] < held[k]
        invariant |used| == |ds| && used[k] <= held[k] && used == before[k := used[k]]
        invariant remaining == t0 - Worth(used[k], ds[k])
        invariant Take(held[k], t0, ds[k]) == used[k] + Take(held[k] - used[k], remaining, ds[k])
        decreases held[k] - used[k]
      {
        TakeOne(held[k] - used[k], remaining, ds[k]);
        WorthMore(used[k], ds[k]);
        used := used[k := used[k] + 1];
        remaining := remaining - ds[k];
      }
      TakeOne(held[k] - used[k], remaining, ds[k]);
      assert used[k..] == [used[k]] + before[k + 1..];
    }
    GreedyOfNone(ds[..0], held[..0], remaining);
  }

  lemma GreedyOfNone(ds: seq<nat>, held: Counts, t: int)
    requires ds == [] && held == []
    ensures Greedy(ds, held, t) == []
  {
  }

  // ---------- change ----------

  lemma ChangePrefix(ds: seq<nat>, k: nat, t: int)
    requires Positive(ds) && k < |ds|
    ensures var g := Fit(t, ds[k]);
            ChangeFor(ds[..k + 1], t) == ChangeFor(ds[..k], t - Worth(g, ds[k])) + [g]
  {
    assert ds[..k + 1][..k] == ds[..k];
  }

  lemma FitOne(t: int, d: nat)
    requires d > 0
    ensures Fit(t, d) == if t >= d then Fit(t - d, d) + 1 else 0
  {
  }

  lemma ChangeOfNone(ds: seq<nat>, t: int)
    requires ds == []
    ensures ChangeFor(ds, t) == []
  {
  }

  method GetChange(ds: seq<nat>, t: int) returns (used: Counts)
    requires Positive(ds)
    ensures used == ChangeFor(ds, t)
  {
    hide Fit, Worth, ChangeFor;
    used := Zeros(|ds|);
    var remaining := t;
    var k := |ds|;
    assert ds[..k] == ds && used[k..] == [];
    while k > 0
      invariant 0 <= k <= |ds| == |used| && forall i | 0 <= i < k :: used[i] == 0
      invariant ChangeFor(ds, t) == ChangeFor(ds[..k], remaining) + used[k..]
    {
      k := k - 1;
      ChangePrefix(ds, k, remaining);
      ghost var t0, before := remaining, used;
      WorthOfNone(ds[k]);
      while remaining >= ds[k]
        invariant |used| == |ds| && used == before[k := used[k]]
        invariant remaining == t0 - Worth(used[k], ds[k])
        invariant Fit(t0, ds[k]) == used[k] + Fit(remaining, ds[k])
        decreases remaining
      {
        FitOne(remaining, ds[k]);
        WorthMore(used[k], ds[k]);
        used := used[k := used[k] + 1];
        remaining := remaining - ds[k];
      }
      FitOne(remaining, ds[k]);
      assert used[k..] == [used[k]] + before[k + 1..];
    }
    ChangeOfNone(ds[..0], remaining);
  }

  method GetNumberOfCoinsUsed(u: Counts) returns (n: nat)
    ensures n == Number(u)
  {
    n := 0;
    assert u[..0] == [];
    for k := 0 to |u|
      invariant n == Number(u[..k])
    {
      assert u[..k + 1][..k] == u[..k];
      n := n + u[k];
    }
    assert u[..|u|] == u;
  }

  // ---------- minimizeChange ----------

  lemma ClimbPrefix(ds: seq<nat>, held: Counts, k: nat, t: int)
    requires |ds| == |held| && Positive(ds) && k < |ds|
    ensures var g := TakeBelow(held[k], t, ds[k]);
            Climb(ds[..k + 1], held[..k + 1], t) == Climb(ds[..k], held[..k], t - Worth(g, ds[k])) + [g]
  {
    assert ds[..k + 1][..k] == ds[..k] && held[..k + 1][..k] == held[..k];
    ClimbStep(ds[..k + 1], held[..k + 1], t);
  }

  lemma TakeBelowOne(held: nat, t: int, d: nat)
    requires d > 0
    ensures TakeBelow(held, t, d) == if t > d && held > 0 then TakeBelow(held - 1, t - d, d) + 1 else 0
  {
  }

  lemma ClimbOfNone(ds: seq<nat>, held: Counts, t: int)
    requires ds == [] && held == []
    ensures Climb(ds, held, t) == []
  {
  }

  /** The inner loop of the first pass, for one denomination. */
  method TakeWhileBelow(ds: seq<nat>, k: nat, held: Counts, used0: Counts, remaining0: int, amount0: nat)
    returns (used: Counts, remaining: int, amount: nat)
    requires k < |ds| == |held| == |used0| && used0[k] == 0 && ds[k] > 0 && amount0 == Value(ds, used0)
    ensures used == used0[k := TakeBelow(held[k], remaining0, ds[k])]
    ensures amount == Value(ds, used) && remaining == remaining0 - Worth(used[k], ds[k]) && amount + remaining == amount0 + remaining0
  {
    hide TakeBelow, Worth, Value;
    used, remaining, amount := used0, remaining0, amount0;
    WorthOfNone(ds[k]);
    while remaining > ds[k] && used[k] < held[k]
      invariant |used| == |ds| && used[k] <= held[k] && used == used0[k := used[k]]
      invariant amount == Value(ds, used) && amount + remaining == amount0 + remaining0
      invariant remaining == remaining0 - Worth(used[k], ds[k])
      invariant TakeBelow(held[k], remaining0, ds[k]) == used[k] + TakeBelow(held[k] - used[k], remaining, ds[k])
      decreases held[k] - used[k]
    {
      TakeBelowOne(held[k] - used[k], remaining, ds[k]);
      WorthMore(used[k], ds[k]);
      OneMore(ds, used, k);
      used := used[k := used[k] + 1];
      remaining := remaining - ds[k];
      amount := amount + ds[k];
    }
    TakeBelowOne(held[k] - used[k], remaining, ds[k]);
  }

  /** The first pass: denominations at or past the limit are passed over. */
  method FillBelow(ds: seq<nat>, limit: nat, t: int, held: Counts) returns (used: Counts, remaining: int, amount: nat)
    requires |ds| == |held| && Positive(ds) && limit <= |ds|
    ensures used == ClimbUpTo(ds, limit, held, t)
    ensures amount == Value(ds, used) && remaining == t - amount
  {
    hide TakeBelow, Worth, Climb, Value, Number;
    used := Zeros(|ds|);
    ZerosValue(ds);
    remaining, amount := t, 0;
    var k := |ds|;
    assert used[limit..] == Zeros(|ds| - limit);
    while k > 0
      invariant 0 <= k <= |ds| == |used| && forall i | 0 <= i < k :: used[i] == 0
      invariant amount == Value(ds, used) && remaining == t - amount
      invariant k >= limit ==> remaining == t && used == Zeros(|ds|)
      invariant k <= limit ==> ClimbUpTo(ds, limit, held, t) == Climb(ds[..k], held[..k], remaining) + used[k..]
    {
      k := k - 1;
      if k < limit {
        ClimbPrefix(ds, held, k, remaining);
        ghost var before := used;
        used, remaining, amount := TakeWhileBelow(ds, k, held, used, remaining, amount);
        assert used[k..] == [used[k]] + before[k + 1..];
      }
    }
    ClimbOfNone(ds[..0], held[..0], remaining);
    assert limit == 0 ==> ClimbUpTo(ds, limit, held, t) == Zeros(|ds|);
  }

  /** The second pass: at most one coin, of the lowest denomination above what remains. */
  method FinishWithOne(ds: seq<nat>, held: Counts, low: Counts, t: int, amount0: nat) returns (used: Counts, amount: nat)
    requires |ds| == |held| == |low| && Within(low, held) && Positive(ds)
    requires amount0 == Value(ds, low)
    ensures used == TopUp(ds, held, low, t - amount0) && amount == Value(ds, used)
  {
    hide Value, Number;
    used, amount := low, amount0;
    var remaining := t - amount0;
    ghost var first := FirstAbove(ds, held, low, remaining, 0);
    for k := 0 to |ds|
      invariant used == low && amount == amount0 && remaining == t - amount0 && (k > 0 ==> remaining >= 0)
      invariant first == FirstAbove(ds, held, low, remaining, k)
    {
      if ds[k] > remaining && used[k] < held[k] {
        OneMore(ds, used, k);
        used := used[k := used[k] + 1];
        amount := amount + ds[k];
        remaining := remaining - ds[k];
      }
      if remaining < 0 { break; }
    }
  }

  /** Coins both spent and handed back as change are dropped from both. */
  method DropOverlap(ds: seq<nat>, high: Counts, amount0: nat, back: Counts) returns (used: Counts, amount: nat)
    requires |ds| == |high| == |back| && amount0 == Value(ds, high)
    ensures used == Minus(high, Common(back, high)) && amount == Value(ds, used)
  {
    hide Value, Number;
    used, amount := high, amount0;
    var change := back;
    for k := 0 to |ds|
      invariant |used| == |change| == |ds| && amount == Value(ds, used)
      invariant forall i | 0 <= i < k :: used[i] == high[i] - Min(back[i], high[i])
      invariant forall i | k <= i < |ds| :: used[i] == high[i] && change[i] == back[i]
    {
      while change[k] > 0 && used[k] > 0
        invariant |used| == |change| == |ds| && amount == Value(ds, used)
        invariant forall i | 0 <= i < k :: used[i] == high[i] - Min(back[i], high[i])
        invariant forall i | k < i < |ds| :: used[i] == high[i] && change[i] == back[i]
        invariant used[k] <= high[k] && change[k] <= back[k] && high[k] - used[k] == back[k] - change[k]
        decreases used[k]
      {
        ghost var was := used;
        used := used[k := used[k] - 1];
        change := change[k := change[k] - 1];
        OneMore(ds, used, k);
        assert used[k := used[k] + 1] == was;
        amount := amount - ds[k];
      }
    }
  }

  method MinimizeChange(ds: seq<nat>, maxSpends: int, changeCount: nat, limit: nat, t: int, held: Counts, saved: Counts)
    returns (count: nat, used: Counts)
    requires |ds| == |held| && Positive(ds) && limit <= |ds|
    ensures Choice(count, used) == Minimize(ds, maxSpends, Choice(changeCount, saved), limit, t, held)
  {
    hide Value, Number, ChangeFor, Greedy, ClimbUpTo, TopUp;
    var low, remaining, amount := FillBelow(ds, limit, t, held);
    var high;
    high, amount := FinishWithOne(ds, held, low, t, amount);
    var back := GetChange(ds, amount - t);
    used, amount := DropOverlap(ds, high, amount, back);
    used := GetSpendCoins(ds, amount, held);
    var coins := GetNumberOfCoinsUsed(used);
    back := GetChange(ds, amount - t);
    count := GetNumberOfCoinsUsed(back);
    if count >= changeCount || coins > maxSpends {
      count, used := changeCount, saved;
    }
  }

  // ---------- calculateChange ----------

  /** getNextLowerDenomHeld and getMaxDenomHeld, as one past the index found. */
  method GetHeldBelow(held: Counts, n: nat) returns (limit: nat)
    requires n <= |held|
    ensures limit == HeldBelow(held, n)
  {
    limit := n;
    while limit > 0 && held[limit - 1] == 0
      invariant limit <= n && HeldBelow(held, n) == HeldBelow(held, limit)
    {
      limit := limit - 1;
    }
  }

  lemma CoverPrefix(ds: seq<nat>, held: Counts, k: nat, t: int)
    requires |ds| == |held| && k < |ds|
    ensures var g := TakeUp(held[k], t, ds[k]);
            Cover(ds[..k + 1], held[..k + 1], t) == Cover(ds[..k], held[..k], t - Worth(g, ds[k])) + [g]
  {
    assert ds[..k + 1][..k] == ds[..k] && held[..k + 1][..k] == held[..k];
  }

  lemma TakeUpOne(held: nat, t: int, d: nat)
    ensures TakeUp(held, t, d) == if t > 0 && held > 0 then TakeUp(held - 1, t - d, d) + 1 else 0
  {
  }

  lemma {:induction false} CoverOfNothing(ds: seq<nat>, held: Counts, t: int)
    requires |ds| == |held| && t <= 0
    ensures Cover(ds, held, t) == Zeros(|ds|)
    decreases |ds|
  {
    if ds != [] {
      var n := |ds| - 1;
      assert Worth(0, ds[n]) == 0;
      CoverOfNothing(ds[..n], held[..n], t);
    }
  }

  /** Its inner loop, for one denomination. */
  method TakeUntilCovered(ds: seq<nat>, k: nat, held: Counts, used0: Counts, remaining0: int, amount0: nat, coins0: nat)
    returns (used: Counts, remaining: int, amount: nat, coins: nat)
    requires k < |ds| == |held| == |used0| && used0[k] == 0 && amount0 == Value(ds, used0) && coins0 == Number(used0)
    ensures used == used0[k := TakeUp(held[k], remaining0, ds[k])] && coins == Number(used)
    ensures amount == Value(ds, used) && remaining == remaining0 - Worth(used[k], ds[k]) && amount + remaining == amount0 + remaining0
  {
    hide TakeUp, Worth, Value, Number;
    used, remaining, amount, coins := used0, remaining0, amount0, coins0;
    WorthOfNone(ds[k]);
    while remaining > 0 && used[k] < held[k]
      invariant |used| == |ds| && used[k] <= held[k] && used == used0[k := used[k]]
      invariant amount == Value(ds, used) && coins == Number(used) && amount + remaining == amount0 + remaining0
      invariant remaining == remaining0 - Worth(used[k], ds[k])
      invariant TakeUp(held[k], remaining0, ds[k]) == used[k] + TakeUp(held[k] - used[k], remaining, ds[k])
      decreases held[k] - used[k]
    {
      TakeUpOne(held[k] - used[k], remaining, ds[k]);
      WorthMore(used[k], ds[k]);
      OneMore(ds, used, k);
      used := used[k := used[k] + 1];
      amount, coins, remaining := amount + ds[k], coins + 1, remaining - ds[k];
    }
    TakeUpOne(held[k] - used[k], remaining, ds[k]);
  }

  /** From the highest denomination down until the amount is covered, stopping once it is exceeded. */
  method FillUp(ds: seq<nat>, t: int, held: Counts) returns (used: Counts, amount: nat, coins: nat)
    requires |ds| == |held|
    ensures used == Cover(ds, held, t) && amount == Value(ds, used) && coins == Number(used)
  {
    hide TakeUp, Worth, Cover, Value, Number;
    used := Zeros(|ds|);
    ZerosValue(ds);
    amount, coins := 0, 0;
    var remaining := t;
    var k := |ds|;
    assert ds[..k] == ds && held[..k] == held && used[k..] == [];
    while k > 0
      invariant 0 <= k <= |ds| == |used| && forall i | 0 <= i < k :: used[i] == 0
      invariant amount == Value(ds, used) && coins == Number(used) && remaining == t - amount
      invariant Cover(ds, held, t) == Cover(ds[..k], held[..k], remaining) + used[k..]
    {
      k := k - 1;
      CoverPrefix(ds, held, k, remaining);
      ghost var before := used;
      used, remaining, amount, coins := TakeUntilCovered(ds, k, held, used, remaining, amount, coins);
      assert used[k..] == [used[k]] + before[k + 1..];
      if remaining < 0 { break; }
    }
    if k > 0 {
      CoverOfNothing(ds[..k], held[..k], remaining);
    } else {
      CoverOfNone(ds[..0], held[..0], remaining);
    }
    assert used == used[..k] + used[k..];
  }

  lemma CoverOfNone(ds: seq<nat>, held: Counts, t: int)
    requires ds == [] && held == []
    ensures Cover(ds, held, t) == []
  {
  }

  method CalculateChange(ds: seq<nat>, maxSpends: int, minimize: bool, t: int, held: Counts)
    returns (count: nat, used: Counts)
    requires |ds| == |held| && Positive(ds)
    ensures Choice(count, used) == Calculate(ds, maxSpends, minimize, t, held)
  {
    hide Value, Number, ChangeFor, Cover, Minimize, HeldBelow;
    var k := 0;
    while k < |ds| && !(t < ds[k] && held[k] > 0)
      invariant k <= |ds| && FirstAbove(ds, held, Zeros(|ds|), t, 0) == FirstAbove(ds, held, Zeros(|ds|), t, k)
    {
      k := k + 1;
    }
    if k < |ds| {
      used := Zeros(|ds|)[k := 1];
      assert used == Single(|ds|, k);
      var back := GetChange(ds, ds[k] - t);
      count := GetNumberOfCoinsUsed(back);
      if minimize {
        var limit := GetHeldBelow(held, k);
        var less, alternative := MinimizeChange(ds, maxSpends, count, limit, t, held, used);
        MinimizeOnlyLowers(ds, maxSpends, Choice(count, used), limit, t, held);
        if less < count {
          return less, alternative;
        }
        used := Zeros(|ds|)[k := 1];
      }
    } else {
      var amount, coins;
      used, amount, coins := FillUp(ds, t, held);
      var back := GetChange(ds, amount - t);
      count := GetNumberOfCoinsUsed(back);
      var limit := GetHeldBelow(held, |ds|);
      var less, alternative := MinimizeChange(ds, maxSpends, count, limit, t, held, used);
      var spends := GetNumberOfCoinsUsed(alternative);
      if minimize || coins >= spends {
        count, used := less, alternative;
      }
    }
  }

  // ---------- mints in the wallet ----------

  predicate Free(m: Mint, k: nat) { !m.isUsed && m.denomination == k }

  /** How many unspent mints of one denomination there are. */
  function FreeCount(mints: seq<Mint>, k: nat): nat {
    if mints == [] then 0 else (if Free(mints[0], k) then 1 else 0) + FreeCount(mints[1..], k)
  }

  /** One more mint counts if it is unspent and of the denomination, wherever it stands. */
  lemma {:induction false} FreeOfMore(mints: seq<Mint>, m: Mint, k: nat)
    ensures FreeCount([], k) == 0
    ensures FreeCount(mints + [m], k) == FreeCount(mints, k) + if !m.isUsed && m.denomination == k then 1 else 0
    decreases |mints|
  {
    if mints == [] {
      assert ([] + [m])[1..] == [];
    } else {
      assert (mints + [m])[1..] == mints[1..] + [m];
      FreeOfMore(mints[1..], m, k);
    }
  }

  function Available(mints: seq<Mint>, n: nat): (held: Counts)
    ensures |held| == n
  {
    seq(n, k requires 0 <= k < n => FreeCount(mints, k))
  }

  /** One denomination of getIdealSpends: unspent mints of it, in list order, while they still fit. */
  method CollectOne(ds: seq<nat>, mints: seq<Mint>, k: nat, remaining0: int, used0: Counts) returns (remaining: int, used: Counts)
    requires Positive(ds) && k < |ds| == |used0| && used0[k] == 0
    ensures var g := Take(FreeCount(mints, k), remaining0, ds[k]);
            used == used0[k := g] && remaining == remaining0 - Worth(g, ds[k])
    ensures remaining0 - remaining == Value(ds, used) - Value(ds, used0)
  {
    hide Take, Worth, Value, Number;
    remaining, used := remaining0, used0;
    WorthOfNone(ds[k]);
    assert mints[0..] == mints;
    var i := 0;
    while i < |mints|
      invariant i <= |mints| && |used| == |ds| && used == used0[k := used[k]]
      invariant remaining == remaining0 - Worth(used[k], ds[k]) && remaining0 - remaining == Value(ds, used) - Value(ds, used0)
      invariant Take(FreeCount(mints, k), remaining0, ds[k]) == used[k] + Take(FreeCount(mints[i..], k), remaining, ds[k])
    {
      assert mints[i..][1..] == mints[i + 1..];
      TakeOne(FreeCount(mints[i..], k), remaining, ds[k]);
      if !mints[i].isUsed {
        if remaining >= ds[k] && k == mints[i].denomination {
          WorthMore(used[k], ds[k]);
          OneMore(ds, used, k);
          used := used[k := used[k] + 1];
          remaining := remaining - ds[k];
        }
        if remaining < ds[k] {
          TakeOne(FreeCount(mints[i + 1..], k), remaining, ds[k]);
          return;
        }
      }
      i := i + 1;
    }
    TakeOne(0, remaining, ds[k]);
  }

  /** Exact spends: true exactly when the greedy choice from the unspent mints is worth the target. */
  method GetIdealSpends(ds: seq<nat>, t: int, mints: seq<Mint>) returns (exact: bool, used: Counts)
    requires Positive(ds)
    ensures used == Greedy(ds, Available(mints, |ds|), t)
    ensures exact <==> Value(ds, used) == t
  {
    hide Take, Worth, Greedy, Value, Number, FreeCount;
    ghost var held := Available(mints, |ds|);
    used := Zeros(|ds|);
    ZerosValue(ds);
    var remaining := t;
    var k := |ds|;
    assert ds[..k] == ds && held[..k] == held && used[k..] == [];
    while k > 0
      invariant 0 <= k <= |ds| == |used| && forall i | 0 <= i < k :: used[i] == 0
      invariant remaining == t - Value(ds, used)
      invariant Greedy(ds, held, t) == Greedy(ds[..k], held[..k], remaining) + used[k..]
    {
      k := k - 1;
      GreedyPrefix(ds, held, k, remaining);
      ghost var before := used;
      remaining, used := CollectOne(ds, mints, k, remaining, used);
      assert used[k..] == [used[k]] + before[k + 1..];
    }
    GreedyOfNone(ds[..0], held[..0], remaining);
    exact := remaining == 0;
  }

  /**
   Completeness and optimality: an exact spend is found exactly when some choice of unspent mints is
   worth the target, and then no such choice has fewer mints.
   */
  lemma IdealSpendsAreBest(ds: seq<nat>, t: nat, mints: seq<Mint>)
    requires Chain(ds) && Positive(ds)
    ensures var held := Available(mints, |ds|);
            && (Value(ds, Greedy(ds, held, t)) == t <==> exists u :: Within(u, held) && Value(ds, u) == t)
            && (forall u | Within(u, held) && Value(ds, u) == t :: Number(Greedy(ds, held, t)) <= Number(u))
  {
    hide Greedy, Value, Number;
    var held := Available(mints, |ds|);
    forall u | Within(u, held) && Value(ds, u) == t
      ensures Value(ds, Greedy(ds, held, t)) == t && Number(Greedy(ds, held, t)) <= Number(u)
    {
      GreedyIsBest(ds, held, t, u);
    }
  }

  // ---------- positions of the chosen mints ----------

  predicate Distinct(sel: seq<nat>) {
    forall i, j | 0 <= i < j < |sel| :: sel[i] != sel[j]
  }

  predicate AllFree(mints: seq<Mint>, sel: seq<nat>) {
    forall p | p in sel :: p < |mints| && !mints[p].isUsed
  }

  function Picked(mints: seq<Mint>, sel: seq<nat>, k: nat): nat {
    if sel == [] then 0 else
      var p := sel[|sel| - 1];
      Picked(mints, sel[..|sel| - 1], k) + if p < |mints| && mints[p].denomination == k then 1 else 0
  }

  lemma OneLess(ds: seq<nat>, u: Counts, k: nat)
    requires |ds| == |u| && k < |u| && u[k] > 0
    ensures Value(ds, u[k := u[k] - 1]) == Value(ds, u) - ds[k]
    ensures Number(u[k := u[k] - 1]) == Number(u) - 1
  {
    var w := u[k := u[k] - 1];
    OneMore(ds, w, k);
    assert w[k := w[k] + 1] == u;
  }

  /** One sweep of the list: the first `need` unspent mints of the denomination from position i on. */
  function FirstFree(mints: seq<Mint>, i: nat, k: nat, need: nat): (r: seq<nat>)
    requires i <= |mints|
    ensures |r| == Min(need, FreeCount(mints[i..], k))
    ensures forall p | p in r :: i <= p < |mints| && Free(mints[p], k)
    decreases |mints| - i
  {
    if i == |mints| || need == 0 then [] else
      assert mints[i..][1..] == mints[i + 1..];
      if Free(mints[i], k) then [i] + FirstFree(mints, i + 1, k, need - 1) else FirstFree(mints, i + 1, k, need)
  }

  lemma {:induction false} FirstFreeDistinct(mints: seq<Mint>, i: nat, k: nat, need: nat)
    requires i <= |mints|
    ensures Distinct(FirstFree(mints, i, k, need))
    ensures |FirstFree(mints, i, k, need)| < need ==> forall p | i <= p < |mints| && Free(mints[p], k) :: p in FirstFree(mints, i, k, need)
    decreases |mints| - i
  {
    if i < |mints| && need > 0 {
      if Free(mints[i], k) {
        FirstFreeDistinct(mints, i + 1, k, need - 1);
      } else {
        FirstFreeDistinct(mints, i + 1, k, need);
      }
    }
  }

  /** Sweeps are repeated until the count is used up. */
  function Sweeps(mints: seq<Mint>, k: nat, need: nat): (r: seq<nat>)
    requires need > 0 ==> FreeCount(mints, k) > 0
    ensures |r| == need && forall p | p in r :: p < |mints| && Free(mints[p], k)
    decreases need
  {
    if need == 0 then [] else
      assert mints[0..] == mints;
      var r := FirstFree(mints, 0, k, need);
      r + Sweeps(mints, k, need - |r|)
  }

  /** One denomination is chosen without repetition exactly when there are enough mints of it. */
  lemma SweepsDistinct(mints: seq<Mint>, k: nat, need: nat)
    requires need > 0 ==> FreeCount(mints, k) > 0
    ensures Distinct(Sweeps(mints, k, need)) <==> need <= FreeCount(mints, k)
  {
    if need > 0 {
      assert mints[0..] == mints;
      var r := FirstFree(mints, 0, k, need);
      FirstFreeDistinct(mints, 0, k, need);
      var rest := Sweeps(mints, k, need - |r|);
      if need > FreeCount(mints, k) {
        assert rest[0] in rest && rest[0] in r;
        var j :| 0 <= j < |r| && r[j] == rest[0];
        assert (r + rest)[j] == (r + rest)[|r|];
      } else {
        assert r + rest == r;
      }
    }
  }

  /** Of each of the first n denominations with coins to spend, some unspent mint exists. */
  predicate SomeOfEach(mints: seq<Mint>, n: nat, used: Counts) {
    n <= |used| && forall k | 0 <= k < n && used[k] > 0 :: FreeCount(mints, k) > 0
  }

  function Spends(mints: seq<Mint>, n: nat, used: Counts): (r: seq<nat>)
    requires SomeOfEach(mints, n, used)
    ensures AllFree(mints, r) && forall p | p in r :: mints[p].denomination < n
  {
    if n == 0 then [] else Sweeps(mints, n - 1, used[n - 1]) + Spends(mints, n - 1, used)
  }

  lemma DistinctApart(a: seq<nat>, b: seq<nat>)
    requires forall p | p in a :: p !in b
    ensures Distinct(a + b) <==> Distinct(a) && Distinct(b)
  {
    var c := a + b;
    assert forall i | 0 <= i < |a| :: c[i] == a[i] && a[i] in a;
    assert forall i | 0 <= i < |b| :: c[|a| + i] == b[i] && b[i] in b;
    if Distinct(a) && Distinct(b) {
      forall i, j | 0 <= i < j < |c| ensures c[i] != c[j] {
        assert i >= |a| ==> c[i] == b[i - |a|];
        assert j >= |a| ==> c[j] == b[j - |a|];
      }
    }
    if Distinct(c) {
      forall i, j | 0 <= i < j < |b| ensures b[i] != b[j] {
        assert c[|a| + i] != c[|a| + j];
      }
    }
  }

  lemma {:induction false} PickedJoin(mints: seq<Mint>, a: seq<nat>, b: seq<nat>, k: nat)
    ensures Picked(mints, a + b, k) == Picked(mints, a, k) + Picked(mints, b, k)
    decreases |b|
  {
    if b == [] {
      assert a + b == a;
    } else {
      assert (a + b)[..|a + b| - 1] == a + b[..|b| - 1];
      PickedJoin(mints, a, b[..|b| - 1], k);
    }
  }

  lemma {:induction false} PickedOfOne(mints: seq<Mint>, a: seq<nat>, j: nat, k: nat)
    requires forall p | p in a :: p < |mints| && mints[p].denomination == j
    ensures Picked(mints, a, k) == if j == k then |a| else 0
    decreases |a|
  {
    if a != [] {
      assert a[|a| - 1] in a;
      PickedOfOne(mints, a[..|a| - 1], j, k);
    }
  }

  /**
   getSpends returns unspent mints, as many of each denomination as asked for; their list positions
   are distinct exactly when no more is asked for than there is.
   */
  lemma {:induction false} SpendsAreAsAsked(mints: seq<Mint>, n: nat, used: Counts)
    requires SomeOfEach(mints, n, used)
    ensures forall k: nat :: Picked(mints, Spends(mints, n, used), k) == if k < n then used[k] else 0
    ensures Distinct(Spends(mints, n, used)) <==> forall k | 0 <= k < n :: used[k] <= FreeCount(mints, k)
    decreases n
  {
    if n > 0 {
      OneMoreDenomination(mints, n, used);
    } else {
      assert Spends(mints, n, used) == [] && forall k: nat :: Picked(mints, [], k) == 0;
    }
  }

  lemma {:induction false} OneMoreDenomination(mints: seq<Mint>, n: nat, used: Counts)
    requires n > 0 && SomeOfEach(mints, n, used)
    ensures forall k: nat :: Picked(mints, Spends(mints, n, used), k) == if k < n then used[k] else 0
    ensures Distinct(Spends(mints, n, used)) <==> forall k | 0 <= k < n :: used[k] <= FreeCount(mints, k)
    decreases n, 0
  {
    hide Sweeps, Spends, Picked, FreeCount, Distinct;
    var m := n - 1;
    var a, b := Sweeps(mints, m, used[m]), Spends(mints, m, used);
    SpendsStep(mints, m, used);
    assert Spends(mints, n, used) == a + b;
    SpendsAreAsAsked(mints, m, used);
    SweepsDistinct(mints, m, used[m]);
    DistinctApart(a, b);
    forall k: nat ensures Picked(mints, a + b, k) == if k < n then used[k] else 0 {
      PickedJoin(mints, a, b, k);
      PickedOfOne(mints, a, m, k);
    }
  }

  /** Asked for two coins where there is one, getSpends returns it twice. */
  lemma SpendsRepeat()
    ensures var mints := [Mint(0, false)]; SomeOfEach(mints, 1, [2]) && Spends(mints, 1, [2]) == [0, 0]
  {
    var mints := [Mint(0, false)];
    assert FreeCount(mints, 0) == 1;
    SpendsAreAsAsked(mints, 1, [2]);
    var sel := Spends(mints, 1, [2]);
    assert Spends(mints, 0, [2]) == [] && sel == Sweeps(mints, 0, 2);
    assert forall i | 0 <= i < |sel| :: sel[i] in sel && sel[i] == 0;
  }

  /** One sweep of the list for one denomination. */
  method Sweep(ds: seq<nat>, mints: seq<Mint>, k: nat, sel0: seq<nat>, spent0: int, left0: Counts)
    returns (sel: seq<nat>, spent: int, left: Counts)
    requires k < |ds| == |left0|
    ensures var r := FirstFree(mints, 0, k, left0[k]);
            && sel == sel0 + r && left == left0[k := left0[k] - |r|]
            && spent - spent0 == Value(ds, left0) - Value(ds, left)
            && |r| == Number(left0) - Number(left)
  {
    hide Value, Number;
    sel, spent, left := sel0, spent0, left0;
    for i := 0 to |mints|
      invariant |left| == |ds| && left == left0[k := left[k]] && left[k] <= left0[k]
      invariant spent - spent0 == Value(ds, left0) - Value(ds, left)
      invariant |sel| - |sel0| == left0[k] - left[k] == Number(left0) - Number(left)
      invariant sel0 + FirstFree(mints, 0, k, left0[k]) == sel + FirstFree(mints, i, k, left[k])
    {
      if !mints[i].isUsed {
        if k == mints[i].denomination && left[k] > 0 {
          OneLess(ds, left, k);
          sel := sel + [i];
          spent := spent + ds[k];
          left := left[k := left[k] - 1];
        }
      }
    }
    assert sel == sel0 + FirstFree(mints, 0, k, left0[k]);
  }

  /** All the sweeps for one denomination. */
  method SweepUntilDone(ds: seq<nat>, mints: seq<Mint>, k: nat, sel0: seq<nat>, spent0: int, left0: Counts)
    returns (sel: seq<nat>, spent: int, left: Counts)
    requires k < |ds| == |left0| && (left0[k] > 0 ==> FreeCount(mints, k) > 0)
    ensures sel == sel0 + Sweeps(mints, k, left0[k]) && left == left0[k := 0]
    ensures spent - spent0 == Value(ds, left0) - Value(ds, left)
    ensures |sel| - |sel0| == Number(left0) - Number(left)
  {
    hide Value, Number, FirstFree, Sweeps;
    sel, spent, left := sel0, spent0, left0;
    while left[k] > 0
      invariant |left| == |ds| && left == left0[k := left[k]]
      invariant spent - spent0 == Value(ds, left0) - Value(ds, left)
      invariant |sel| - |sel0| == Number(left0) - Number(left)
      invariant sel0 + Sweeps(mints, k, left0[k]) == sel + Sweeps(mints, k, left[k])
      decreases left[k]
    {
      SweepsStep(mints, k, left[k]);
      ghost var r := FirstFree(mints, 0, k, left[k]);
      assert sel + (r + Sweeps(mints, k, left[k] - |r|)) == sel + r + Sweeps(mints, k, left[k] - |r|);
      sel, spent, left := Sweep(ds, mints, k, sel, spent, left);
    }
    SweepsOfNone(mints, k);
  }

  method GetSpends(ds: seq<nat>, mints: seq<Mint>, used: Counts) returns (sel: seq<nat>, spent: int, left: Counts)
    requires |ds| == |used| && SomeOfEach(mints, |ds|, used)
    ensures sel == Spends(mints, |ds|, used)
    ensures spent == Value(ds, used) && |sel| == Number(used) && left == Zeros(|ds|)
  {
    hide Value, Number, Spends, Sweeps;
    sel, spent, left := [], 0, used;
    var k := |ds|;
    while k > 0
      invariant 0 <= k <= |ds| == |left|
      invariant forall i | 0 <= i < |ds| :: left[i] == if i < k then used[i] else 0
      invariant spent == Value(ds, used) - Value(ds, left) && |sel| == Number(used) - Number(left)
      invariant Spends(mints, |ds|, used) == sel + Spends(mints, k, used)
    {
      k := k - 1;
      SpendsStep(mints, k, used);
      ghost var rest := Spends(mints, k, used);
      assert sel + (Sweeps(mints, k, left[k]) + rest) == sel + Sweeps(mints, k, left[k]) + rest;
      sel, spent, left := SweepUntilDone(ds, mints, k, sel, spent, left);
    }
    assert left == Zeros(|ds|);
    ZerosValue(ds);
    SpendsOfNone(mints, used);
  }

  lemma SweepsOfNone(mints: seq<Mint>, k: nat)
    ensures Sweeps(mints, k, 0) == []
  {
  }

  lemma SpendsStep(mints: seq<Mint>, k: nat, used: Counts)
    requires SomeOfEach(mints, k + 1, used)
    ensures Spends(mints, k + 1, used) == Sweeps(mints, k, used[k]) + Spends(mints, k, used)
  {
  }

  lemma SpendsOfNone(mints: seq<Mint>, used: Counts)
    ensures Spends(mints, 0, used) == []
  {
  }

  lemma SweepsStep(mints: seq<Mint>, k: nat, need: nat)
    requires need > 0 && FreeCount(mints, k) > 0
    ensures |FirstFree(mints, 0, k, need)| > 0
    ensures Sweeps(mints, k, need) == FirstFree(mints, 0, k, need) + Sweeps(mints, k, need - |FirstFree(mints, 0, k, need)|)
  {
    assert mints[0..] == mints;
  }

  // ---------- SelectMintsFromList ----------

  /** The chosen positions are unspent mints, none chosen twice, with these counts per denomination. */
  ghost predicate Chosen(mints: seq<Mint>, sel: seq<nat>, used: Counts) {
    && AllFree(mints, sel) && Distinct(sel)
    && forall k: nat :: Picked(mints, sel, k) == if k < |used| then used[k] else 0
  }

  lemma HeldIsChosen(mints: seq<Mint>, used: Counts)
    requires Within(used, Available(mints, |used|))
    ensures SomeOfEach(mints, |used|, used) && Chosen(mints, Spends(mints, |used|, used), used)
  {
    var held := Available(mints, |used|);
    assert forall k | 0 <= k < |used| :: used[k] <= held[k] && held[k] == FreeCount(mints, k);
    SpendsAreAsAsked(mints, |used|, used);
  }

  /** Whether the mints chosen meet the target: with the change that is said to come back. */
  predicate Pays(ds: seq<nat>, t: int, used: Counts, coinsReturned: nat)
    requires |ds| == |used| && Positive(ds)
  {
    Value(ds, used) >= t && coinsReturned == Number(ChangeFor(ds, Value(ds, used) - t))
  }

  /** No more coins of change than the least that pays gives, if few enough make it up and no denomination is skipped. */
  ghost predicate LittleChange(ds: seq<nat>, t: nat, maxSpends: int, held: Counts, change: nat)
    requires |ds| == |held| && Positive(ds) && t > 0
  {
    forall u | Least(ds, t, held, u) && Number(u) <= maxSpends && !Skips(ds, held, Excess(ds, held, t)) ::
      change <= Number(ChangeFor(ds, Value(ds, u) - t))
  }

  /** No more coins than any choice that pays the target. */
  ghost predicate FewCoins(ds: seq<nat>, t: int, held: Counts, used: Counts)
    requires |ds| == |held|
  {
    forall u | Within(u, held) && Value(ds, u) >= t :: Number(used) <= Number(u)
  }

  lemma NoChangeIsLittle(ds: seq<nat>, t: nat, maxSpends: int, held: Counts)
    requires |ds| == |held| && Positive(ds) && t > 0
    ensures LittleChange(ds, t, maxSpends, held, 0)
  {
  }

  lemma CalculatedIsLeast(ds: seq<nat>, maxSpends: int, minimize: bool, t: nat, held: Counts)
    requires Chain(ds) && |ds| == |held| && Positive(ds) && t > 0
    requires forall u :: !ExactWithin(ds, t, held, u, maxSpends)
    ensures var c := Calculate(ds, maxSpends, minimize, t, held);
            && (minimize ==> LittleChange(ds, t, maxSpends, held, c.change))
            && (!minimize ==> FewCoins(ds, t, held, c.used))
  {
    hide Value, Number, ChangeFor, Calculate, Chain, Excess, Skips, PlainChoice;
    if minimize {
      forall u | Least(ds, t, held, u) && Number(u) <= maxSpends && !Skips(ds, held, Excess(ds, held, t))
        ensures Calculate(ds, maxSpends, true, t, held).change <= Number(ChangeFor(ds, Value(ds, u) - t))
      {
        assert !ExactWithin(ds, t, held, u, maxSpends);
        ChangeIsMinimized(ds, maxSpends, t, held, u);
      }
    } else {
      forall u | Within(u, held) && Value(ds, u) >= t
        ensures Number(Calculate(ds, maxSpends, false, t, held).used) <= Number(u)
      {
        CoinsAreFewest(ds, maxSpends, t, held, u);
      }
    }
  }

  /**
   Nothing is returned exactly if every exact choice needs too many coins and what is computed
   instead has no change. For a target in whole lowest coins that is so when no single coin held is
   above it and taking coins from the highest down meets it exactly.
   */
  method SelectMintsFromList(ds: seq<nat>, t: int, maxSpends: nat, minimize: bool, mints: seq<Mint>, held: Counts)
    returns (sel: seq<nat>, spent: int, coinsReturned: nat, used: Counts)
    requires Chain(ds) && Positive(ds) && Within(held, Available(mints, |ds|)) && t > 0 && Value(ds, held) >= t
    ensures |used| == |ds| && Within(used, Available(mints, |ds|))
    ensures sel == [] || (Chosen(mints, sel, used) && spent == Value(ds, used) && Pays(ds, t, used, coinsReturned))
    ensures sel == [] ==> coinsReturned == 0
    ensures forall u | ExactWithin(ds, t, Available(mints, |ds|), u, maxSpends) :: sel != [] && spent == t && |sel| <= Number(u)
    ensures ds != [] && (sel == [] <==>
              (forall u :: !ExactWithin(ds, t, Available(mints, |ds|), u, maxSpends)) && 0 <= Value(ds, used) - t < ds[0])
    ensures Multiple(ds[0], t) ==> (sel == [] <==>
              && (forall u :: !ExactWithin(ds, t, Available(mints, |ds|), u, maxSpends))
              && FirstAbove(ds, held, Zeros(|ds|), t, 0).None? && Value(ds, Cover(ds, held, t)) == t)
    ensures minimize ==> LittleChange(ds, t, maxSpends, held, coinsReturned)
    ensures !minimize && (forall u :: !ExactWithin(ds, t, Available(mints, |ds|), u, maxSpends)) ==> FewCoins(ds, t, held, used)
  {
    hide Value, Number, ChangeFor, Greedy, Calculate, Available, Spends, Chain, Chosen, SomeOfEach, Multiple, Sound, FirstAbove, Cover,
         LittleChange, FewCoins;
    WorthSomething(ds, held);
    var exact;
    exact, used := GetIdealSpends(ds, t, mints);
    IdealIsExact(ds, t, mints, used, exact);
    HeldIsChosen(mints, used);
    sel, spent, coinsReturned := [], 0, 0;
    if exact {
      ExactHasNoChange(ds);
      var left;
      sel, spent, left := GetSpends(ds, mints, used);
      ValueNeedsCoins(ds, used);
      if |sel| <= maxSpends {
        assert ExactWithin(ds, t, Available(mints, |ds|), used, maxSpends);
        NoChangeIsLittle(ds, t, maxSpends, held);
        return;
      }
    }
    coinsReturned, used := CalculateChange(ds, maxSpends, minimize, t, held);
    NothingWithin(ds, t, mints, held, maxSpends);
    CalculatedIs(ds, maxSpends, minimize, t, held);
    CalculatedIsLeast(ds, maxSpends, minimize, t, held);
    HeldIsChosen(mints, used);
    ValueNeedsCoins(ds, used);
    if coinsReturned == 0 {
      sel := [];
    } else {
      var left;
      sel, spent, left := GetSpends(ds, mints, used);
    }
  }

  lemma IdealIsExact(ds: seq<nat>, t: int, mints: seq<Mint>, used: Counts, exact: bool)
    requires Chain(ds) && Positive(ds) && t > 0
    requires used == Greedy(ds, Available(mints, |ds|), t) && (exact <==> Value(ds, used) == t)
    ensures Within(used, Available(mints, |ds|))
    ensures forall u | Within(u, Available(mints, |ds|)) && Value(ds, u) == t :: exact && Number(used) <= Number(u)
  {
    IdealSpendsAreBest(ds, t, mints);
  }

  lemma NothingWithin(ds: seq<nat>, t: nat, mints: seq<Mint>, held: Counts, maxSpends: int)
    requires |held| == |ds| && Within(held, Available(mints, |ds|))
    requires forall u | Within(u, Available(mints, |ds|)) && Value(ds, u) == t :: Number(u) > maxSpends
    ensures forall u :: !ExactWithin(ds, t, Available(mints, |ds|), u, maxSpends)
    ensures forall u :: !ExactWithin(ds, t, held, u, maxSpends)
  {
  }

  /** What calculateChange returns, and when it returns no change. */
  lemma CalculatedIs(ds: seq<nat>, maxSpends: int, minimize: bool, t: nat, held: Counts)
    requires Chain(ds) && |ds| == |held| && Positive(ds) && ds != [] && t > 0 && Value(ds, held) >= t
    requires forall u :: !ExactWithin(ds, t, held, u, maxSpends)
    ensures var c := Calculate(ds, maxSpends, minimize, t, held);
            && Within(c.used, held) && Pays(ds, t, c.used, c.change)
            && (c.change == 0 <==> Value(ds, c.used) - t < ds[0])
            && (Multiple(ds[0], t) ==>
                  (c.change == 0 <==> FirstAbove(ds, held, Zeros(|ds|), t, 0).None? && Value(ds, Cover(ds, held, t)) == t))
  {
    hide Value, Number, ChangeFor, Calculate, Chain, Multiple, FirstAbove, Cover, ExactWithin, Positive;
    CalculateIsSound(ds, maxSpends, minimize, t, held);
    SmallChangeIsNone(ds, Value(ds, Calculate(ds, maxSpends, minimize, t, held).used) - t);
    if Multiple(ds[0], t) {
      NoChangeMeansTooMany(ds, maxSpends, minimize, t, held);
    }
  }
}
