/** Bounded greedy choice of coins from a chain of denominations, each dividing the next. */
module Denominations {
  import opened Arithmetic
  import opened Primitives

  // Counts are sequences aligned with the ascending list of denomination values.

  type Counts = seq<nat>

  /** zerocoinDenomList, as amounts. */
  const LIST: seq<nat> := [COIN, 5 * COIN, 10 * COIN, 50 * COIN, 100 * COIN, 500 * COIN, 1000 * COIN, 5000 * COIN]

  ghost predicate Multiple(d: nat, t: int) {
    exists q: nat :: t == q * d
  }

  /** Positive, ascending, each value a multiple of the one before. */
  ghost predicate Chain(ds: seq<nat>) {
    ds == [] ||
    var n := |ds| - 1;
    && ds[n] > 0 && Chain(ds[..n])
    && (n > 0 ==> ds[n - 1] < ds[n] && Multiple(ds[n - 1], ds[n]))
  }

  lemma ChainPrefix(ds: seq<nat>)
    requires Chain(ds)
    ensures ds != [] ==> Chain(ds[..|ds| - 1])
  {
  }

  lemma ListIsChain()
    ensures Chain(LIST)
    ensures LIST == [1_0000_0000, 5_0000_0000, 10_0000_0000, 50_0000_0000, 100_0000_0000, 500_0000_0000, 1000_0000_0000, 5000_0000_0000]
  {
    var l := LIST;
    assert l[1] == 5 * l[0] && l[2] == 2 * l[1] && l[3] == 5 * l[2] && l[4] == 2 * l[3]
           && l[5] == 5 * l[4] && l[6] == 2 * l[5] && l[7] == 5 * l[6];
    assert Chain(l[..0]) && Chain(l[..1]) by { assert l[..1][..0] == []; }
    assert Chain(l[..2]) by { assert l[..2][..1] == l[..1]; }
    assert Chain(l[..3]) by { assert l[..3][..2] == l[..2]; }
    assert Chain(l[..4]) by { assert l[..4][..3] == l[..3]; }
    assert Chain(l[..5]) by { assert l[..5][..4] == l[..4]; }
    assert Chain(l[..6]) by { assert l[..6][..5] == l[..5]; }
    assert Chain(l[..7]) by { assert l[..7][..6] == l[..6]; }
  }

  // ---------- products ----------

  /** What a number of coins of one value are worth. */
  function Worth(n: nat, d: nat): nat { n * d }

  lemma WorthMore(n: nat, d: nat)
    ensures Worth(n + 1, d) == Worth(n, d) + d
  {
  }

  lemma WorthOfNone(d: nat)
    ensures Worth(0, d) == 0
  {
  }

  // ---------- counts ----------

  function Value(ds: seq<nat>, u: Counts): nat
    requires |ds| == |u|
  {
    if ds == [] then 0 else Value(ds[..|ds| - 1], u[..|ds| - 1]) + Worth(u[|ds| - 1], ds[|ds| - 1])
  }

  function Number(u: Counts): nat {
    if u == [] then 0 else Number(u[..|u| - 1]) + u[|u| - 1]
  }

  /** Componentwise at most. */
  predicate Within(u: Counts, held: Counts) {
    |u| == |held| && forall i | 0 <= i < |u| :: u[i] <= held[i]
  }

  function Minus(u: Counts, w: Counts): (r: Counts)
    requires Within(w, u)
    ensures Within(r, u)
  {
    seq(|u|, i requires 0 <= i < |u| => u[i] - w[i])
  }

  lemma {:induction false} MinusValue(ds: seq<nat>, u: Counts, w: Counts)
    requires |ds| == |u| && Within(w, u)
    ensures Value(ds, Minus(u, w)) == Value(ds, u) - Value(ds, w)
    ensures Number(Minus(u, w)) == Number(u) - Number(w)
  {
    if ds != [] {
      var n := |ds| - 1;
      MinusValue(ds[..n], u[..n], w[..n]);
      assert Minus(u, w)[..n] == Minus(u[..n], w[..n]);
      assert (u[n] - w[n]) * ds[n] == u[n] * ds[n] - w[n] * ds[n];
    }
  }

  lemma {:induction false} ZerosValue(ds: seq<nat>)
    ensures Value(ds, Zeros(|ds|)) == 0 && Number(Zeros(|ds|)) == 0
  {
    if ds != [] {
      ZerosValue(ds[..|ds| - 1]);
      assert Zeros(|ds|)[..|ds| - 1] == Zeros(|ds| - 1);
    }
  }

  lemma {:induction false} OneMore(ds: seq<nat>, u: Counts, k: nat)
    requires |ds| == |u| && k < |u|
    ensures Value(ds, u[k := u[k] + 1]) == Value(ds, u) + ds[k]
    ensures Number(u[k := u[k] + 1]) == Number(u) + 1
  {
    var n := |ds| - 1;
    if k < n {
      OneMore(ds[..n], u[..n], k);
      assert u[k := u[k] + 1][..n] == u[..n][k := u[k] + 1];
    } else {
      assert u[k := u[k] + 1][..n] == u[..n];
      assert (u[n] + 1) * ds[n] == u[n] * ds[n] + ds[n];
    }
  }

  lemma ValueStep(ds: seq<nat>, u: Counts, g: nat)
    requires |ds| == |u| + 1
    ensures Value(ds, u + [g]) == Value(ds[..|u|], u) + Worth(g, ds[|u|])
  {
    assert (u + [g])[..|u|] == u;
  }

  lemma NothingIsWorthless(ds: seq<nat>, u: Counts)
    requires ds == [] == u
    ensures Value(ds, u) == 0
  {
  }

  lemma NumberStep(u: Counts, g: nat)
    ensures Number(u + [g]) == Number(u) + g
  {
    assert (u + [g])[..|u|] == u;
  }

  lemma {:induction false} ValueNeedsCoins(ds: seq<nat>, u: Counts)
    requires |ds| == |u| && Value(ds, u) > 0
    ensures Number(u) > 0
  {
    if u[|u| - 1] == 0 {
      ValueNeedsCoins(ds[..|ds| - 1], u[..|u| - 1]);
    }
  }

  // ---------- bounded greedy choice ----------

  /** As many coins worth d as the amount and the stock allow: the inner loop of getSpendCoins. */
  function Take(held: nat, t: int, d: nat): (g: nat)
    requires d > 0
    ensures g <= held && (t >= 0 ==> Worth(g, d) <= t) && (t < 0 ==> g == 0)
    ensures g == held || t - Worth(g, d) < d
    decreases held
  {
    if t >= d && held > 0 then
      var g := Take(held - 1, t - d, d);
      assert (g + 1) * d == g * d + d;
      g + 1
    else 0
  }

  /** getSpendCoins: from the highest denomination down. */
  function Greedy(ds: seq<nat>, held: Counts, t: int): (u: Counts)
    requires |ds| == |held| && forall i | 0 <= i < |ds| :: ds[i] > 0
    ensures Within(u, held)
    decreases |ds|
  {
    if ds == [] then [] else
      var n := |ds| - 1;
      var g := Take(held[n], t, ds[n]);
      Greedy(ds[..n], held[..n], t - Worth(g, ds[n])) + [g]
  }

  lemma {:induction false} ChainPositive(ds: seq<nat>)
    requires Chain(ds)
    ensures forall i | 0 <= i < |ds| :: 0 < ds[i] <= ds[|ds| - 1]
  {
    if ds != [] {
      ChainPositive(ds[..|ds| - 1]);
    }
  }

  lemma GreedyStep(ds: seq<nat>, held: Counts, t: int)
    requires ds != [] && |ds| == |held| && forall i | 0 <= i < |ds| :: ds[i] > 0
    ensures var n := |ds| - 1; var g := Take(held[n], t, ds[n]); var low := Greedy(ds[..n], held[..n], t - Worth(g, ds[n]));
            && Greedy(ds, held, t) == low + [g]
            && Value(ds, Greedy(ds, held, t)) == Value(ds[..n], low) + Worth(g, ds[n])
            && Number(Greedy(ds, held, t)) == Number(low) + g
  {
    hide Worth, Take;
    var n := |ds| - 1;
    var u := Greedy(ds, held, t);
    assert u[..n] == Greedy(ds[..n], held[..n], t - Worth(u[n], ds[n]));
  }

  lemma {:induction false} GreedyNeverExceeds(ds: seq<nat>, held: Counts, t: nat)
    requires |ds| == |held| && forall i | 0 <= i < |ds| :: ds[i] > 0
    ensures Value(ds, Greedy(ds, held, t)) <= t
    decreases |ds|
  {
    if ds != [] {
      hide Worth, Take, Greedy, Value;
      var n := |ds| - 1;
      GreedyStep(ds, held, t);
      GreedyNeverExceeds(ds[..n], held[..n], t - Worth(Take(held[n], t, ds[n]), ds[n]));
    } else {
      NothingIsWorthless(ds, Greedy(ds, held, t));
    }
  }

  lemma MultipleOfMultiple(c: nat, d: nat, t: int)
    requires Multiple(c, d) && Multiple(d, t)
    ensures Multiple(c, t)
  {
    var p: nat :| d == p * c;
    var q: nat :| t == q * d;
    assert t == (q * p) * c;
  }

  /** What is left of a multiple after a greedy take is nothing, unless the coins ran out. */
  lemma TakeFromMultiple(held: nat, t: nat, d: nat)
    requires d > 0 && Multiple(d, t)
    ensures Multiple(d, t - Worth(Take(held, t, d), d))
    ensures t - Worth(Take(held, t, d), d) == 0 || Take(held, t, d) == held
  {
    var q: nat :| t == q * d;
    var g := Take(held, t, d);
    MulDiff(q, g, d);
    if q < g {
      MulLess(q, g, d);
    } else if q > g {
      MulLess(g, q, d);
    }
    assert t - g * d == (q - g) * d;
  }

  /** A multiple of the highest value is met exactly whenever the coins are worth enough. */
  lemma {:induction false} GreedyFillsMultiples(ds: seq<nat>, held: Counts, t: nat)
    requires Chain(ds) && |ds| == |held| && forall i | 0 <= i < |ds| :: ds[i] > 0
    requires ds != [] ==> Multiple(ds[|ds| - 1], t)
    requires Value(ds, held) >= t
    ensures Value(ds, Greedy(ds, held, t)) == t
    decreases |ds|
  {
    if ds != [] {
      var n := |ds| - 1;
      var g := Take(held[n], t, ds[n]);
      var rest := t - Worth(g, ds[n]);
      TakeFromMultiple(held[n], t, ds[n]);
      hide Worth;
      if n > 0 {
        MultipleOfMultiple(ds[n - 1], ds[n], rest);
      }
      GreedyFillsMultiples(ds[..n], held[..n], rest);
      assert Greedy(ds, held, t)[..n] == Greedy(ds[..n], held[..n], rest);
    }
  }

  /** Coins below the highest denomination worth at least one coin of it contain one worth exactly that. */
  lemma TradeUp(ds: seq<nat>, u: Counts, d: nat) returns (w: Counts)
    requires Chain(ds + [d]) && |ds| == |u| && Value(ds, u) >= d
    ensures Within(w, u) && Value(ds, w) == d && Number(w) >= 1
  {
    assert (ds + [d])[..|ds|] == ds;
    ChainPositive(ds + [d]);
    ChainPositive(ds);
    GreedyFillsMultiples(ds, u, d);
    w := Greedy(ds, u, d);
    ValueNeedsCoins(ds, w);
  }

  /** A choice with room for one more of the highest coin can trade lower ones for it. */
  lemma Exchange(ds: seq<nat>, u: Counts, t: nat) returns (u': Counts)
    requires Chain(ds) && ds != [] && |ds| == |u| && Value(ds, u) == t
    requires Worth(u[|ds| - 1], ds[|ds| - 1]) + ds[|ds| - 1] <= t
    ensures |u'| == |u| && Within(u'[..|u| - 1], u[..|u| - 1]) && u'[|u| - 1] == u[|u| - 1] + 1
    ensures Value(ds, u') == t && Number(u') <= Number(u)
  {
    hide Value, Number, Worth, Chain;
    var n := |ds| - 1;
    var d, low := ds[n], u[..n];
    assert ds[..n] + [d] == ds && low + [u[n]] == u;
    ValueStep(ds, low, u[n]);
    NumberStep(low, u[n]);
    var w := TradeUp(ds[..n], low, d);
    MinusValue(ds[..n], low, w);
    u' := Minus(low, w) + [u[n] + 1];
    ValueStep(ds, Minus(low, w), u[n] + 1);
    NumberStep(Minus(low, w), u[n] + 1);
    WorthMore(u[n], d);
    assert u'[..n] == Minus(low, w);
  }

  lemma TakeIsMost(held: nat, t: nat, d: nat, k: nat)
    requires d > 0 && k <= held && Worth(k, d) <= t
    ensures k <= Take(held, t, d)
    ensures k < Take(held, t, d) ==> Worth(k, d) + d <= t
  {
    var g := Take(held, t, d);
    if g < k {
      MulLess(g, k, d);
    } else if k < g {
      MulLess(k, g, d);
    }
  }

  /**
   Completeness and optimality: if any choice within the stock is worth exactly the target, the
   greedy choice is too, and with no more coins.
   */
  lemma {:induction false} GreedyIsBest(ds: seq<nat>, held: Counts, t: nat, u: Counts)
    requires Chain(ds) && |ds| == |held| && forall i | 0 <= i < |ds| :: ds[i] > 0
    requires Within(u, held) && Value(ds, u) == t
    ensures Value(ds, Greedy(ds, held, t)) == t
    ensures Number(Greedy(ds, held, t)) <= Number(u)
    decreases |ds|, if ds == [] then 0 else held[|ds| - 1] - u[|ds| - 1], 1
  {
    if ds == [] {
      assert Greedy(ds, held, t) == u;
    } else if u[|ds| - 1] == Take(held[|ds| - 1], t, ds[|ds| - 1]) {
      SameTopIsBest(ds, held, t, u);
    } else {
      TradedIsBest(ds, held, t, u);
    }
  }

  lemma TopOf(ds: seq<nat>, u: Counts)
    requires |ds| == |u| > 0
    ensures var n := |ds| - 1; Value(ds, u) == Value(ds[..n], u[..n]) + Worth(u[n], ds[n]) && Number(u) == Number(u[..n]) + u[n]
  {
  }

  lemma {:induction false} SameTopIsBest(ds: seq<nat>, held: Counts, t: nat, u: Counts)
    requires Chain(ds) && ds != [] && |ds| == |held| && forall i | 0 <= i < |ds| :: ds[i] > 0
    requires Within(u, held) && Value(ds, u) == t && u[|ds| - 1] == Take(held[|ds| - 1], t, ds[|ds| - 1])
    ensures Value(ds, Greedy(ds, held, t)) == t
    ensures Number(Greedy(ds, held, t)) <= Number(u)
    decreases |ds|, held[|ds| - 1] - u[|ds| - 1], 0
  {
    hide Worth, Take, Chain, Greedy, Value, Number;
    GreedyStep(ds, held, t);
    ChainPrefix(ds);
    TopOf(ds, u);
    var n := |ds| - 1;
    GreedyIsBest(ds[..n], held[..n], t - Worth(u[n], ds[n]), u[..n]);
  }

  lemma {:induction false} TradedIsBest(ds: seq<nat>, held: Counts, t: nat, u: Counts)
    requires Chain(ds) && ds != [] && |ds| == |held| && forall i | 0 <= i < |ds| :: ds[i] > 0
    requires Within(u, held) && Value(ds, u) == t && u[|ds| - 1] != Take(held[|ds| - 1], t, ds[|ds| - 1])
    ensures Value(ds, Greedy(ds, held, t)) == t
    ensures Number(Greedy(ds, held, t)) <= Number(u)
    decreases |ds|, held[|ds| - 1] - u[|ds| - 1], 0
  {
    var n := |ds| - 1;
    assert Value(ds, u) >= Worth(u[n], ds[n]);
    hide Worth, Take, Chain, Greedy, Value, Number;
    TakeIsMost(held[n], t, ds[n], u[n]);
    var u' := Exchange(ds, u, t);
    assert forall i | 0 <= i < n :: u'[i] == u'[..n][i] && u[i] == u[..n][i];
    GreedyIsBest(ds, held, t, u');
  }
}
