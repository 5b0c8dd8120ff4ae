/** How close to the target minimizeChange comes, and what calculateChange minimises. */
module LeastChange {
  import opened Arithmetic
  import opened Wrappers
  import opened Denominations
  import opened Change

  // ---------- the greedy choice is worth the most below its target ----------

  lemma {:induction false} GreedyIsMost(ds: seq<nat>, held: Counts, t: nat, u: Counts)
    requires Chain(ds) && |ds| == |held| && Positive(ds) && Within(u, held) && Value(ds, u) <= t
    ensures Value(ds, u) <= Value(ds, Greedy(ds, held, t))
    decreases |ds|, if ds == [] then 0 else held[|ds| - 1] - u[|ds| - 1]
  {
    hide Greedy, Worth, Value, Chain, Take;
    if ds == [] {
      NothingIsWorthless(ds, u);
    } else {
      var n := |ds| - 1;
      var g := Take(held[n], t, ds[n]);
      GreedyStep(ds, held, t);
      TopOf(ds, u);
      ChainPrefix(ds);
      TakeIsMost(held[n], t, ds[n], u[n]);
      if u[n] == g {
        GreedyIsMost(ds[..n], held[..n], t - Worth(g, ds[n]), u[..n]);
      } else if Value(ds[..n], u[..n]) < ds[n] {
        WorthLess(u[n], g, ds[n]);
      } else {
        var u' := Exchange(ds, u, Value(ds, u));
        assert forall i | 0 <= i < n :: u'[i] == u'[..n][i] && u[i] == u[..n][i];
        GreedyIsMost(ds, held, t, u');
      }
    }
  }

  lemma WorthLess(a: nat, b: nat, d: nat)
    requires a < b
    ensures Worth(a, d) + d <= Worth(b, d)
  {
    MulLess(a, b, d);
  }

  // ---------- change and overlap ----------

  lemma TakeIsFit(held: nat, t: int, d: nat)
    requires d > 0
    ensures Take(held, t, d) == Min(held, Fit(t, d))
    decreases held
  {
    if t >= d && held > 0 {
      TakeIsFit(held - 1, t - d, d);
    }
  }

  /**
   The change of an amount would hold more coins of some denomination than there are in stock, while
   the stock has more coins of a lower one than the change.
   */
  ghost predicate Skips(ds: seq<nat>, stock: Counts, e: int)
    requires |ds| == |stock| && Positive(ds)
  {
    exists l, j | 0 <= l < j < |ds| :: ChangeFor(ds, e)[j] > stock[j] && stock[l] > ChangeFor(ds, e)[l]
  }

  lemma CommonStep(ds: seq<nat>, stock: Counts, e: int)
    requires |ds| == |stock| && Positive(ds) && ds != []
    ensures var n := |ds| - 1; var c := Fit(e, ds[n]); var low := ChangeFor(ds[..n], e - Worth(c, ds[n]));
            && ChangeFor(ds, e) == low + [c]
            && Common(ChangeFor(ds, e), stock)[..n] == Common(low, stock[..n])
            && Value(ds, Common(ChangeFor(ds, e), stock)) ==
               Value(ds[..n], Common(low, stock[..n])) + Worth(Take(stock[n], e, ds[n]), ds[n])
  {
    hide Worth, Fit, Take, Value, ChangeFor, Number;
    var n := |ds| - 1;
    var c := Fit(e, ds[n]);
    var low := ChangeFor(ds[..n], e - Worth(c, ds[n]));
    ChangeStep(ds, e);
    TakeIsFit(stock[n], e, ds[n]);
    assert Common(low + [c], stock)[..n] == Common(low, stock[..n]);
    TopOf(ds, Common(low + [c], stock));
  }

  /**
   Taking the overlap with its change out of a stock takes out the most that an amount allows,
   exactly if the change does not skip a denomination.
   */
  lemma {:induction false} OverlapIsMost(ds: seq<nat>, stock: Counts, e: nat)
    requires Chain(ds) && |ds| == |stock| && Positive(ds)
    ensures Value(ds, Common(ChangeFor(ds, e), stock)) <= Value(ds, Greedy(ds, stock, e))
    ensures Value(ds, Common(ChangeFor(ds, e), stock)) == Value(ds, Greedy(ds, stock, e)) <==> !Skips(ds, stock, e)
    decreases |ds|
  {
    hide Worth, Fit, Take, Value, ChangeFor, Number, Greedy, Chain, Skips;
    if ds == [] {
      NothingIsWorthless(ds, Common(ChangeFor(ds, e), stock));
      NothingIsWorthless(ds, Greedy(ds, stock, e));
      NothingToSkip(ds, stock, e);
    } else {
      var n := |ds| - 1;
      var c, g := Fit(e, ds[n]), Take(stock[n], e, ds[n]);
      ChainPrefix(ds);
      GreedyStep(ds, stock, e);
      CommonStep(ds, stock, e);
      TakeIsFit(stock[n], e, ds[n]);
      if c <= stock[n] {
        OverlapIsMost(ds[..n], stock[..n], e - Worth(c, ds[n]));
        SkipsBelow(ds, stock, e);
      } else {
        ShortAtTop(ds, stock, e);
      }
    }
  }

  lemma NothingToSkip(ds: seq<nat>, stock: Counts, e: int)
    requires ds == [] == stock
    ensures !Skips(ds, stock, e)
  {
  }

  lemma SkipsBelow(ds: seq<nat>, stock: Counts, e: int)
    requires |ds| == |stock| && Positive(ds) && ds != [] && Fit(e, ds[|ds| - 1]) <= stock[|ds| - 1]
    ensures var n := |ds| - 1; Skips(ds, stock, e) <==> Skips(ds[..n], stock[..n], e - Worth(Fit(e, ds[n]), ds[n]))
  {
    hide Worth, Fit, ChangeFor;
    var n := |ds| - 1;
    var rest := e - Worth(Fit(e, ds[n]), ds[n]);
    ChangeStep(ds, e);
    if Skips(ds, stock, e) {
      var l, j :| 0 <= l < j < |ds| && ChangeFor(ds, e)[j] > stock[j] && stock[l] > ChangeFor(ds, e)[l];
      assert ChangeFor(ds[..n], rest)[j] > stock[..n][j] && stock[..n][l] > ChangeFor(ds[..n], rest)[l];
    }
    if Skips(ds[..n], stock[..n], rest) {
      var l, j :| 0 <= l < j < n && ChangeFor(ds[..n], rest)[j] > stock[..n][j] && stock[..n][l] > ChangeFor(ds[..n], rest)[l];
      assert ChangeFor(ds, e)[j] > stock[j] && stock[l] > ChangeFor(ds, e)[l];
    }
  }

  /** If the stock runs out at the top, everything below must be in the overlap. */
  lemma ShortAtTop(ds: seq<nat>, stock: Counts, e: nat)
    requires Chain(ds) && |ds| == |stock| && Positive(ds) && ds != [] && Fit(e, ds[|ds| - 1]) > stock[|ds| - 1]
    ensures var n := |ds| - 1; var c := Fit(e, ds[n]); var g := stock[n];
            var overlap := Value(ds[..n], Common(ChangeFor(ds[..n], e - Worth(c, ds[n])), stock[..n]));
            var most := Value(ds[..n], Greedy(ds[..n], stock[..n], e - Worth(Take(stock[n], e, ds[n]), ds[n])));
            overlap <= most && (overlap == most <==> !Skips(ds, stock, e))
  {
    hide Worth, Fit, Take, Value, ChangeFor, Number, Greedy, Chain, Skips;
    var n := |ds| - 1;
    var c, g := Fit(e, ds[n]), stock[n];
    var low, held := ds[..n], stock[..n];
    var change := ChangeFor(low, e - Worth(c, ds[n]));
    var overlap := Common(change, held);
    var most := Greedy(low, held, e - Worth(g, ds[n]));
    ChainPrefix(ds);
    ChainPositive(ds);
    TakeIsFit(stock[n], e, ds[n]);
    WorthLess(g, c, ds[n]);
    ChangeNeverExceeds(low, e - Worth(c, ds[n]));
    WithinIsWorthNoMore(low, change, overlap);
    GreedyIsMost(low, held, e - Worth(g, ds[n]), overlap);
    ChangeStep(ds, e);
    if l: nat :| l < n && held[l] > change[l] {
      SkipsAt(ds, stock, e, l);
      var more := overlap[l := overlap[l] + 1];
      OneMore(low, overlap, l);
      GreedyIsMost(low, held, e - Worth(g, ds[n]), more);
    } else {
      assert overlap == held;
      WithinIsWorthNoMore(low, held, most);
      NoSkipBelow(ds, stock, e);
    }
  }

  lemma SkipsAt(ds: seq<nat>, stock: Counts, e: int, l: nat)
    requires |ds| == |stock| && Positive(ds) && l < |ds| - 1
    requires ChangeFor(ds, e)[|ds| - 1] > stock[|ds| - 1] && stock[l] > ChangeFor(ds, e)[l]
    ensures Skips(ds, stock, e)
  {
  }

  lemma NoSkipBelow(ds: seq<nat>, stock: Counts, e: int)
    requires |ds| == |stock| && Positive(ds) && forall l | 0 <= l < |ds| - 1 :: stock[l] <= ChangeFor(ds, e)[l]
    ensures !Skips(ds, stock, e)
  {
  }

  // ---------- choices split at a denomination ----------

  /** What the coins of a choice from one denomination up are worth. */
  function Upper(ds: seq<nat>, u: Counts, i: nat): int
    requires |ds| == |u| && i <= |ds|
  {
    Value(ds, u) - Value(ds[..i], u[..i])
  }

  lemma UpperStep(ds: seq<nat>, u: Counts, i: nat)
    requires |ds| == |u| && i < |ds|
    ensures var n := |ds| - 1; Upper(ds, u, i) == Upper(ds[..n], u[..n], i) + Worth(u[n], ds[n])
  {
    hide Value, Worth;
    var n := |ds| - 1;
    TopOf(ds, u);
    assert ds[..n][..i] == ds[..i] && u[..n][..i] == u[..i];
  }

  lemma {:induction false} Divides(ds: seq<nat>, i: nat, j: nat)
    requires Chain(ds) && i <= j < |ds|
    ensures Multiple(ds[i], ds[j])
    decreases |ds|, j
  {
    var n := |ds| - 1;
    if i == j {
      assert ds[i] == 1 * ds[i];
    } else if j < n {
      Divides(ds[..n], i, j);
    } else {
      Divides(ds[..n], i, n - 1);
      MultipleOfMultiple(ds[i], ds[n - 1], ds[n]);
    }
  }

  lemma {:induction false} UpperIsMultiple(ds: seq<nat>, u: Counts, i: nat)
    requires Chain(ds) && |ds| == |u| && i < |ds|
    ensures Upper(ds, u, i) >= 0 && Multiple(ds[i], Upper(ds, u, i))
    decreases |ds|
  {
    hide Value, Worth, Chain, Upper, Multiple;
    var n := |ds| - 1;
    UpperStep(ds, u, i);
    Divides(ds, i, n);
    TimesMultiple(ds[i], ds[n], u[n]);
    if i < n {
      ChainPrefix(ds);
      UpperIsMultiple(ds[..n], u[..n], i);
      SumIsMultiple(ds[i], Upper(ds[..n], u[..n], i), Worth(u[n], ds[n]));
    } else {
      NothingAbove(ds[..n], u[..n]);
    }
  }

  lemma NothingAbove(ds: seq<nat>, u: Counts)
    requires |ds| == |u|
    ensures Upper(ds, u, |ds|) == 0
  {
    assert ds[..|ds|] == ds && u[..|u|] == u;
  }

  /** Two choices joined at a denomination. */
  lemma {:induction false} Joined(ds: seq<nat>, low: Counts, u: Counts, i: nat)
    requires |ds| == |u| && i == |low| <= |ds|
    ensures Value(ds, low + u[i..]) == Value(ds[..i], low) + Upper(ds, u, i)
    decreases |ds|
  {
    hide Value, Worth, Upper;
    var n := |ds| - 1;
    if i == |ds| {
      NothingAbove(ds, u);
      assert low + u[i..] == low && ds[..i] == ds;
    } else {
      var joined := low + u[i..];
      UpperStep(ds, u, i);
      TopOf(ds, joined);
      Joined(ds[..n], low, u[..n], i);
      assert joined[..n] == low + u[..n][i..] && ds[..n][..i] == ds[..i];
    }
  }

  /** Above a denomination with a coin to spare, the greedy choice leaves less than one such coin. */
  lemma {:induction false} GreedyLeavesLittle(ds: seq<nat>, held: Counts, t: nat, i: nat)
    requires |ds| == |held| && Positive(ds) && i < |ds| && Greedy(ds, held, t)[i] < held[i]
    ensures t - Upper(ds, Greedy(ds, held, t), i) < ds[i]
    decreases |ds|
  {
    hide Value, Worth, Upper, Greedy;
    var n := |ds| - 1;
    var g := Take(held[n], t, ds[n]);
    var u := Greedy(ds, held, t);
    GreedyStep(ds, held, t);
    assert u[..n] == Greedy(ds[..n], held[..n], t - Worth(g, ds[n]));
    UpperStep(ds, u, i);
    if i < n {
      GreedyLeavesLittle(ds[..n], held[..n], t - Worth(g, ds[n]), i);
    } else {
      NothingAbove(ds[..n], u[..n]);
    }
  }

  // ---------- the least that pays the target ----------

  /** A choice that pays the target, with no choice of the coins held that pays it worth less. */
  ghost predicate Least(ds: seq<nat>, t: int, held: Counts, u: Counts)
    requires |ds| == |held|
  {
    Within(u, held) && Value(ds, u) >= t && forall w | Within(w, held) && Value(ds, w) >= t :: Value(ds, u) <= Value(ds, w)
  }

  /** The lowest denomination with a coin to spare; past the end if there is none. */
  function Spare(held: Counts, used: Counts): (i: nat)
    requires Within(used, held)
    ensures i <= |held| && (i < |held| ==> used[i] < held[i]) && forall l | 0 <= l < i :: used[l] == held[l]
  {
    if held == [] || used[0] < held[0] then 0 else 1 + Spare(held[1..], used[1..])
  }

  /** The greedy choice for less than the target, and one more coin of the lowest denomination to spare. */
  function OneOver(ds: seq<nat>, held: Counts, t: nat): (u: Counts)
    requires |ds| == |held| && Positive(ds) && t > 0
    ensures Within(u, held)
  {
    var low := Greedy(ds, held, t - 1);
    var i := Spare(held, low);
    if i < |ds| then low[i := low[i] + 1] else low
  }

  lemma {:induction false} AllUsed(held: Counts, used: Counts)
    requires Within(used, held) && Spare(held, used) == |held|
    ensures used == held
  {
  }

  lemma NoneToSpare(ds: seq<nat>, held: Counts, t: nat)
    requires Chain(ds) && |ds| == |held| && Positive(ds) && t > 0 && Value(ds, held) >= t
    ensures Spare(held, Greedy(ds, held, t - 1)) < |ds|
  {
    hide Greedy, Value;
    GreedyNeverExceeds(ds, held, t - 1);
    var low := Greedy(ds, held, t - 1);
    assert low != held;
  }

  /** How the greedy choice for less than the target lies, split at the lowest denomination to spare. */
  lemma OneOverIs(ds: seq<nat>, held: Counts, t: nat)
    requires Chain(ds) && |ds| == |held| && Positive(ds) && t > 0 && Value(ds, held) >= t
    ensures var low := Greedy(ds, held, t - 1); var i := Spare(held, low); var high := OneOver(ds, held, t);
            && i < |ds| && low[i] < held[i] && high == low[i := low[i] + 1]
            && high[..i] == held[..i]
            && Value(ds, high) == Value(ds, low) + ds[i]
            && Upper(ds, high, i) == Upper(ds, low, i) + ds[i] >= t
            && Value(ds[..i], held[..i]) + Upper(ds, low, i) < t
            && 0 <= Value(ds, high) - t < ds[i]
  {
    hide Greedy, Value;
    var low := Greedy(ds, held, t - 1);
    var i := Spare(held, low);
    NoneToSpare(ds, held, t);
    GreedyNeverExceeds(ds, held, t - 1);
    GreedyLeavesLittle(ds, held, t - 1, i);
    OneMore(ds, low, i);
    var high := OneOver(ds, held, t);
    assert high[..i] == low[..i] == held[..i];
    ValueNeverNegative(ds[..i], held[..i]);
  }

  lemma ValueNeverNegative(ds: seq<nat>, u: Counts)
    requires |ds| == |u|
    ensures Value(ds, u) >= 0
  {
  }

  /** Multiples of one number, one more than the other, are at least that number apart. */
  lemma MultiplesApart(d: nat, a: int, b: int)
    requires Multiple(d, a) && Multiple(d, b) && a < b
    ensures a + d <= b
  {
    var p: nat :| a == p * d;
    var q: nat :| b == q * d;
    if q <= p {
      if q < p { MulLess(q, p, d); }
    } else {
      MulLess(p, q, d);
    }
  }

  /** Whatever pays the target is worth no less than some part of the coins one over. */
  lemma PartOfOneOver(ds: seq<nat>, held: Counts, t: nat, w: Counts) returns (w': Counts)
    requires Chain(ds) && |ds| == |held| && Positive(ds) && t > 0 && Within(w, held) && Value(ds, w) >= t
    ensures Within(w', OneOver(ds, held, t)) && t <= Value(ds, w') <= Value(ds, w)
  {
    hide Value, Upper, Greedy, Multiple, Chain, OneOver;
    WithinIsWorthNoMore(ds, held, w);
    OneOverIs(ds, held, t);
    var low := Greedy(ds, held, t - 1);
    var i := Spare(held, low);
    var high := OneOver(ds, held, t);
    assert Within(w[..i], held[..i]);
    WithinIsWorthNoMore(ds[..i], held[..i], w[..i]);
    UpperIsMultiple(ds, w, i);
    UpperIsMultiple(ds, low, i);
    UpperIs(ds, w, i);
    MultiplesApart(ds[i], Upper(ds, low, i), Upper(ds, w, i));
    w' := w[..i] + high[i..];
    Joined(ds, w[..i], high, i);
    ValueNeverNegative(ds[..i], w[..i]);
    assert forall l | 0 <= l < i :: w'[l] == w[l] <= held[..i][l] == high[..i][l];
  }

  lemma UpperIs(ds: seq<nat>, u: Counts, i: nat)
    requires |ds| == |u| && i <= |ds|
    ensures Value(ds, u) == Value(ds[..i], u[..i]) + Upper(ds, u, i)
  {
  }

  lemma PartIsWorth(ds: seq<nat>, high: Counts, t: nat, part: Counts)
    requires Chain(ds) && |ds| == |high| && Positive(ds) && Within(part, high) && t <= Value(ds, part)
    ensures Value(ds, high) >= t
    ensures Value(ds, part) >= Value(ds, high) - Value(ds, Greedy(ds, high, Value(ds, high) - t))
  {
    hide Value, Greedy, Chain;
    WithinIsWorthNoMore(ds, high, part);
    MinusValue(ds, high, part);
    GreedyIsMost(ds, high, Value(ds, high) - t, Minus(high, part));
  }

  /** The least that pays the target: the coins one over, less the most that they pay too much. */
  lemma LeastIs(ds: seq<nat>, held: Counts, t: nat, u: Counts)
    requires Chain(ds) && |ds| == |held| && Positive(ds) && t > 0 && Least(ds, t, held, u)
    ensures var high := OneOver(ds, held, t);
            Value(ds, high) >= t && Value(ds, u) == Value(ds, high) - Value(ds, Greedy(ds, high, Value(ds, high) - t))
  {
    hide Value, Greedy, Chain, OneOver;
    var high := OneOver(ds, held, t);
    var part := PartOfOneOver(ds, held, t, u);
    PartIsWorth(ds, high, t, part);
    var e := Value(ds, high) - t;
    GreedyNeverExceeds(ds, high, e);
    MinusValue(ds, high, Greedy(ds, high, e));
    assert Within(Minus(high, Greedy(ds, high, e)), held);
  }

  // ---------- what the two passes of minimizeChange find ----------

  lemma StrictTake(held: nat, t: int, d: nat)
    requires d > 0
    ensures TakeBelow(held, t, d) == Take(held, t - 1, d)
    decreases held
  {
    if t > d && held > 0 {
      StrictTake(held - 1, t - d, d);
    }
  }

  /** The first pass is the greedy choice for one less. */
  lemma {:induction false} ClimbIsGreedy(ds: seq<nat>, held: Counts, t: int)
    requires |ds| == |held| && Positive(ds)
    ensures Climb(ds, held, t) == Greedy(ds, held, t - 1)
    decreases |ds|
  {
    if ds != [] {
      hide Worth, Take, TakeBelow;
      var n := |ds| - 1;
      StrictTake(held[n], t, ds[n]);
      ClimbIsGreedy(ds[..n], held[..n], t - Worth(TakeBelow(held[n], t, ds[n]), ds[n]));
    }
  }

  lemma TooBigStep(ds: seq<nat>, held: Counts, t: int)
    requires |ds| == |held| && Positive(ds) && ds != [] && (held[|ds| - 1] == 0 || ds[|ds| - 1] >= t)
    ensures Climb(ds, held, t) == Climb(ds[..|ds| - 1], held[..|ds| - 1], t) + [0]
  {
    hide Worth, Climb, Value;
    ClimbStep(ds, held, t);
    WorthOfNone(ds[|ds| - 1]);
  }

  /** Leaving out the highest denominations changes nothing where no coin of them is held or worth less. */
  lemma {:induction false} FirstPassIsGreedy(ds: seq<nat>, limit: nat, held: Counts, t: int)
    requires |ds| == |held| && Positive(ds) && limit <= |ds|
    requires forall i | limit <= i < |ds| :: held[i] == 0 || ds[i] >= t
    ensures ClimbUpTo(ds, limit, held, t) == Greedy(ds, held, t - 1)
    decreases |ds| - limit
  {
    hide Climb, Greedy;
    var n := |ds|;
    ClimbIsGreedy(ds, held, t);
    if limit == n {
      assert ds[..limit] == ds && held[..limit] == held;
    } else {
      TooBigStep(ds, held, t);
      FirstPassIsGreedy(ds[..n - 1], limit, held[..n - 1], t);
      ClimbIsGreedy(ds[..n - 1], held[..n - 1], t);
      assert ds[..n - 1][..limit] == ds[..limit] && held[..n - 1][..limit] == held[..limit];
      assert Zeros(n - limit) == Zeros(n - 1 - limit) + [0];
    }
  }

  /** If the target cannot be met exactly, the second pass adds a coin of the lowest denomination to spare. */
  lemma SecondPassIsOneOver(ds: seq<nat>, held: Counts, t: nat)
    requires Chain(ds) && |ds| == |held| && Positive(ds) && t > 0 && Value(ds, held) >= t
    requires forall w | Within(w, held) :: Value(ds, w) != t
    ensures var low := Greedy(ds, held, t - 1); TopUp(ds, held, low, t - Value(ds, low)) == OneOver(ds, held, t)
  {
    hide Value, Greedy, FirstAbove;
    OneOverIs(ds, held, t);
    GreedyNeverExceeds(ds, held, t - 1);
    var low := Greedy(ds, held, t - 1);
    var i := Spare(held, low);
    FirstAboveIs(ds, held, low, t - Value(ds, low), 0, i);
  }

  lemma FirstAboveIs(ds: seq<nat>, held: Counts, used: Counts, t: int, from: nat, i: nat)
    requires |ds| == |held| == |used| && from <= i < |ds| && ds[i] > t && used[i] < held[i]
    requires forall l | from <= l < i :: !(ds[l] > t && used[l] < held[l])
    ensures FirstAbove(ds, held, used, t, from) == Some(i)
    decreases i - from
  {
  }

  /** What the coins one over pay too much. */
  function Excess(ds: seq<nat>, held: Counts, t: nat): int
    requires |ds| == |held| && Positive(ds) && t > 0
  {
    Value(ds, OneOver(ds, held, t)) - t
  }

  /** Below the denomination to spare all coins are used, and the change has only such. */
  lemma SkipsAlike(ds: seq<nat>, held: Counts, t: nat)
    requires Chain(ds) && |ds| == |held| && Positive(ds) && t > 0 && Value(ds, held) >= t
    ensures Skips(ds, OneOver(ds, held, t), Excess(ds, held, t)) <==> Skips(ds, held, Excess(ds, held, t))
  {
    hide Value, Greedy, Chain, ChangeFor, OneOver;
    OneOverIs(ds, held, t);
    var e := Excess(ds, held, t);
    var high := OneOver(ds, held, t);
    var i := Spare(held, Greedy(ds, held, t - 1));
    forall j | i <= j < |ds| ensures ChangeFor(ds, e)[j] == 0 { NoneOfBigger(ds, e, i, j); }
    assert forall l | 0 <= l < i :: high[l] == high[..i][l] == held[..i][l] == held[l];
    if Skips(ds, held, e) {
      var l, j :| 0 <= l < j < |ds| && ChangeFor(ds, e)[j] > held[j] && held[l] > ChangeFor(ds, e)[l];
      assert ChangeFor(ds, e)[j] > high[j] && high[l] > ChangeFor(ds, e)[l];
    }
    if Skips(ds, high, e) {
      var l, j :| 0 <= l < j < |ds| && ChangeFor(ds, e)[j] > high[j] && high[l] > ChangeFor(ds, e)[l];
      assert ChangeFor(ds, e)[j] > held[j] && held[l] > ChangeFor(ds, e)[l];
    }
  }

  /** Change has no coin worth more than the amount. */
  lemma {:induction false} NoneOfBigger(ds: seq<nat>, e: nat, i: nat, j: nat)
    requires Chain(ds) && Positive(ds) && i <= j < |ds| && e < ds[i]
    ensures ChangeFor(ds, e)[j] == 0
    decreases |ds|
  {
    hide Value, Worth, Number;
    var n := |ds| - 1;
    ChainPositive(ds);
    ChangeStep(ds, e);
    if j < n {
      WorthOfNone(ds[n]);
      NoneOfBigger(ds[..n], e, i, j);
    }
  }

  /**
   If the target cannot be met exactly, the two passes and the removal of the overlap come to the
   least that pays it, exactly if the change of what is paid too much skips no denomination.
   */
  lemma LeanIsLeast(ds: seq<nat>, limit: nat, held: Counts, t: nat, u: Counts)
    requires Chain(ds) && |ds| == |held| && Positive(ds) && limit <= |ds| && t > 0
    requires forall i | limit <= i < |ds| :: held[i] == 0 || ds[i] >= t
    requires Least(ds, t, held, u) && Value(ds, u) > t
    ensures Value(ds, Lean(ds, limit, held, t)) >= Value(ds, u)
    ensures Value(ds, Lean(ds, limit, held, t)) == Value(ds, u) <==> !Skips(ds, held, Excess(ds, held, t))
  {
    hide Value, Greedy, Chain, ChangeFor, OneOver, ClimbUpTo, TopUp, Skips;
    WithinIsWorthNoMore(ds, held, u);
    FirstPassIsGreedy(ds, limit, held, t);
    SecondPassIsOneOver(ds, held, t);
    LeastIs(ds, held, t, u);
    var high := OneOver(ds, held, t);
    var e := Value(ds, high) - t;
    OverlapIsMost(ds, high, e);
    SkipsAlike(ds, held, t);
    MinusValue(ds, high, Common(ChangeFor(ds, e), high));
  }

  // ---------- what calculateChange minimises ----------

  /** minimizeChange offers the change of the least that pays, if it can be paid with few enough coins. */
  lemma MinimizeIsLeast(ds: seq<nat>, maxSpends: int, saved: Choice, limit: nat, t: nat, held: Counts, u: Counts)
    requires Chain(ds) && |ds| == |held| && Positive(ds) && limit <= |ds| && t > 0
    requires forall i | limit <= i < |ds| :: held[i] == 0 || ds[i] >= t
    requires Least(ds, t, held, u) && Value(ds, u) > t && Number(u) <= maxSpends && !Skips(ds, held, Excess(ds, held, t))
    ensures var c := Minimize(ds, maxSpends, saved, limit, t, held);
            && c.change == Min(saved.change, Number(ChangeFor(ds, Value(ds, u) - t)))
            && (c.change < saved.change ==> Value(ds, c.used) == Value(ds, u) && Number(c.used) <= Number(u))
            && (c.change >= saved.change ==> c == saved)
  {
    hide Value, Greedy, Chain, ChangeFor, Lean, Skips, Number, Excess;
    LeanIsLeast(ds, limit, held, t, u);
    GreedyIsBest(ds, held, Value(ds, u), u);
  }

  /** It offers anything else only if a denomination is skipped, and then never the least that pays. */
  lemma MinimizePaysLeastIff(ds: seq<nat>, maxSpends: int, saved: Choice, limit: nat, t: nat, held: Counts, u: Counts)
    requires Chain(ds) && |ds| == |held| && Positive(ds) && limit <= |ds| && t > 0
    requires forall i | limit <= i < |ds| :: held[i] == 0 || ds[i] >= t
    requires Least(ds, t, held, u) && Value(ds, u) > t && Number(u) <= maxSpends
    requires Sound(ds, t, held, saved) && saved.change > Number(ChangeFor(ds, Value(ds, u) - t))
    ensures Value(ds, Minimize(ds, maxSpends, saved, limit, t, held).used) == Value(ds, u) <==>
            !Skips(ds, held, Excess(ds, held, t))
  {
    hide Value, Greedy, Chain, ChangeFor, Lean, Skips, Number, Excess;
    var lean := Lean(ds, limit, held, t);
    LeanIsLeast(ds, limit, held, t, u);
    GreedyIsBest(ds, held, Value(ds, lean), lean);
    GreedyIsBest(ds, held, Value(ds, u), u);
  }

  lemma {:induction false} Ascends(ds: seq<nat>, i: nat, j: nat)
    requires Chain(ds) && i <= j < |ds|
    ensures ds[i] <= ds[j]
    decreases |ds|
  {
    if j == |ds| - 1 {
      ChainPositive(ds);
    } else {
      Ascends(ds[..|ds| - 1], i, j);
    }
  }

  /** The lowest denomination above the target of which a coin is held. */
  predicate IsLowestAbove(ds: seq<nat>, t: int, held: Counts, k: nat)
    requires |ds| == |held|
  {
    k < |ds| && ds[k] > t && held[k] > 0 && forall l | 0 <= l < k :: ds[l] <= t || held[l] == 0
  }

  predicate NoneAbove(ds: seq<nat>, t: int, held: Counts)
    requires |ds| == |held|
  {
    forall k | 0 <= k < |ds| :: ds[k] <= t || held[k] == 0
  }

  /** One coin above the target if there is one, otherwise the coins from the highest down. */
  function Plain(ds: seq<nat>, t: int, held: Counts): (u: Counts)
    requires |ds| == |held| && Positive(ds)
    ensures |u| == |ds|
  {
    match FirstAbove(ds, held, Zeros(|ds|), t, 0)
    case Some(k) => Single(|ds|, k)
    case None => Cover(ds, held, t)
  }

  function PlainChoice(ds: seq<nat>, t: int, held: Counts): (c: Choice)
    requires |ds| == |held| && Positive(ds)
    ensures |c.used| == |ds|
  {
    Choice(Number(ChangeFor(ds, Value(ds, Plain(ds, t, held)) - t)), Plain(ds, t, held))
  }

  /** The denominations the first pass looks at. */
  function Limit(ds: seq<nat>, t: int, held: Counts): (limit: nat)
    requires |ds| == |held|
    ensures limit <= |ds|
  {
    match FirstAbove(ds, held, Zeros(|ds|), t, 0)
    case Some(k) => HeldBelow(held, k)
    case None => HeldBelow(held, |ds|)
  }

  lemma LimitIsEnough(ds: seq<nat>, t: int, held: Counts)
    requires Chain(ds) && |ds| == |held|
    ensures forall i | Limit(ds, t, held) <= i < |ds| :: held[i] == 0 || ds[i] >= t
  {
    hide Chain, HeldBelow, FirstAbove;
    var first := FirstAbove(ds, held, Zeros(|ds|), t, 0);
    if first.Some? {
      forall i | first.value <= i < |ds| ensures ds[i] >= t { Ascends(ds, first.value, i); }
    }
  }

  lemma CalculateIs(ds: seq<nat>, maxSpends: int, minimize: bool, t: int, held: Counts)
    requires |ds| == |held| && Positive(ds)
    ensures var plain := PlainChoice(ds, t, held); var less := Minimize(ds, maxSpends, plain, Limit(ds, t, held), t, held);
            var several := FirstAbove(ds, held, Zeros(|ds|), t, 0).None?;
            Calculate(ds, maxSpends, minimize, t, held) ==
              if minimize || (several && Number(plain.used) >= Number(less.used)) then less else plain
  {
    hide Minimize, Value, Number, ChangeFor, Single, Cover, HeldBelow, FirstAbove;
    var first := FirstAbove(ds, held, Zeros(|ds|), t, 0);
    if first.Some? {
      SingleValue(ds, first.value);
    }
  }

  lemma PlainChoiceIsSound(ds: seq<nat>, t: int, held: Counts)
    requires Chain(ds) && |ds| == |held| && Positive(ds) && t > 0 && Value(ds, held) >= t
    ensures Sound(ds, t, held, PlainChoice(ds, t, held))
  {
    hide Value, Number, ChangeFor, Single, Cover, Chain, FirstAbove, Sound, Within;
    var first := FirstAbove(ds, held, Zeros(|ds|), t, 0);
    if first.Some? {
      SingleValue(ds, first.value);
      OneCoinIsSound(ds, t, held, first.value);
    } else {
      CoverReaches(ds, held, t);
      PlainIsSound(ds, t, held, Cover(ds, held, t));
    }
  }

  /**
   With fMinimizeChange, calculateChange returns no more coins of change than the least amount that
   pays the target gives, if few enough coins make up that amount and no denomination is skipped:
   just as many as that, or those of the plain choice if these are fewer.
   */
  lemma ChangeIsMinimized(ds: seq<nat>, maxSpends: int, t: nat, held: Counts, u: Counts)
    requires Chain(ds) && |ds| == |held| && Positive(ds) && t > 0
    requires Least(ds, t, held, u) && Value(ds, u) > t && Number(u) <= maxSpends && !Skips(ds, held, Excess(ds, held, t))
    ensures var c := Calculate(ds, maxSpends, true, t, held); var plain := PlainChoice(ds, t, held);
            && c.change == Min(plain.change, Number(ChangeFor(ds, Value(ds, u) - t)))
            && (c.change < plain.change ==> Value(ds, c.used) == Value(ds, u) && Number(c.used) <= Number(u))
  {
    hide Minimize, Calculate, Least, PlainChoice, Limit, Skips, Excess, Chain, FirstAbove, Number, Value, ChangeFor;
    LimitIsEnough(ds, t, held);
    CalculateIs(ds, maxSpends, true, t, held);
    MinimizeIsLeast(ds, maxSpends, PlainChoice(ds, t, held), Limit(ds, t, held), t, held, u);
  }

  /** The condition is exact: where the least that pays has less change, it is paid exactly if nothing is skipped. */
  lemma LeastIsPaidIff(ds: seq<nat>, maxSpends: int, t: nat, held: Counts, u: Counts)
    requires Chain(ds) && |ds| == |held| && Positive(ds) && t > 0
    requires Least(ds, t, held, u) && Value(ds, u) > t && Number(u) <= maxSpends
    requires Number(ChangeFor(ds, Value(ds, u) - t)) < PlainChoice(ds, t, held).change
    ensures Value(ds, Calculate(ds, maxSpends, true, t, held).used) == Value(ds, u) <==> !Skips(ds, held, Excess(ds, held, t))
  {
    hide Minimize, Calculate, PlainChoice, Limit, Skips, Excess, Chain, FirstAbove, Number, Value, ChangeFor, Sound;
    LimitIsEnough(ds, t, held);
    CalculateIs(ds, maxSpends, true, t, held);
    WithinIsWorthNoMore(ds, held, u);
    PlainChoiceIsSound(ds, t, held);
    MinimizePaysLeastIff(ds, maxSpends, PlainChoice(ds, t, held), Limit(ds, t, held), t, held, u);
  }

  // ---------- without fMinimizeChange: as few coins as possible ----------

  lemma TakeUpIsFewest(held: nat, t: int, d: nat, k: nat)
    requires d > 0 && Worth(k, d) >= t
    ensures TakeUp(held, t, d) <= k
    decreases held
  {
    if t > 0 && held > 0 {
      if k == 0 {
        WorthOfNone(d);
      } else {
        WorthMore(k - 1, d);
        TakeUpIsFewest(held - 1, t - d, d, k - 1);
      }
    }
  }

  lemma {:induction false} NothingCovered(ds: seq<nat>, held: Counts, t: int)
    requires |ds| == |held| && t <= 0
    ensures Number(Cover(ds, held, t)) == 0
    decreases |ds|
  {
    if ds != [] {
      hide Worth;
      var n := |ds| - 1;
      WorthOfNone(ds[n]);
      NothingCovered(ds[..n], held[..n], t);
      assert Cover(ds, held, t)[..n] == Cover(ds[..n], held[..n], t);
    }
  }

  lemma CoverTop(ds: seq<nat>, held: Counts, t: int)
    requires |ds| == |held| && ds != []
    ensures var n := |ds| - 1; var g := TakeUp(held[n], t, ds[n]);
            Number(Cover(ds, held, t)) == Number(Cover(ds[..n], held[..n], t - Worth(g, ds[n]))) + g
  {
    hide Worth, TakeUp;
    var n := |ds| - 1;
    var u := Cover(ds, held, t);
    assert u[..n] == Cover(ds[..n], held[..n], t - Worth(u[n], ds[n]));
  }

  lemma {:induction false} SomeCoin(u: Counts) returns (l: nat)
    requires Number(u) > 0
    ensures l < |u| && u[l] > 0
  {
    l := |u| - 1;
    if u[l] == 0 {
      l := SomeCoin(u[..l]);
    }
  }

  /** A lower coin exchanged for one of the highest denomination. */
  lemma Raised(ds: seq<nat>, u: Counts) returns (u': Counts)
    requires Chain(ds) && ds != [] && |ds| == |u| && Number(u[..|u| - 1]) > 0
    ensures |u'| == |u| && Within(u'[..|u| - 1], u[..|u| - 1]) && u'[|u| - 1] == u[|u| - 1] + 1
    ensures Value(ds, u') >= Value(ds, u) && Number(u') == Number(u)
  {
    hide Value, Number, Chain;
    var n := |ds| - 1;
    var l := SomeCoin(u[..n]);
    Ascends(ds, l, n);
    var fewer := u[l := u[l] - 1];
    OneMore(ds, fewer, l);
    OneMore(ds, fewer, n);
    assert fewer[l := fewer[l] + 1] == u;
    u' := fewer[n := fewer[n] + 1];
  }

  /** Taking coins from the highest down until the target is covered takes as few as can pay it. */
  lemma {:induction false} CoverIsFewest(ds: seq<nat>, held: Counts, t: int, u: Counts)
    requires Chain(ds) && |ds| == |held| && Positive(ds) && Within(u, held) && Value(ds, u) >= t
    ensures Number(Cover(ds, held, t)) <= Number(u)
    decreases |ds|, if ds == [] then 0 else held[|ds| - 1] - u[|ds| - 1]
  {
    hide Value, Number, Worth, Chain, Cover, TakeUp;
    if ds == [] {
      NothingCovers(held, t);
    } else {
      var n := |ds| - 1;
      var g := TakeUp(held[n], t, ds[n]);
      TopOf(ds, u);
      CoverTop(ds, held, t);
      ChainPrefix(ds);
      if g < held[n] && u[n] >= g {
        NothingCovered(ds[..n], held[..n], t - Worth(g, ds[n]));
      } else if u[n] >= g {
        CoverIsFewest(ds[..n], held[..n], t - Worth(g, ds[n]), u[..n]);
      } else if Number(u[..n]) > 0 {
        var u' := Raised(ds, u);
        assert forall i | 0 <= i < n :: u'[i] == u'[..n][i] && u[i] == u[..n][i];
        CoverIsFewest(ds, held, t, u');
      } else {
        NoCoinsNoValue(ds[..n], u[..n]);
        TakeUpIsFewest(held[n], t, ds[n], u[n]);
      }
    }
  }

  lemma NothingCovers(held: Counts, t: int)
    requires held == []
    ensures Number(Cover([], held, t)) == 0
  {
  }

  lemma {:induction false} NoCoinsNoValue(ds: seq<nat>, u: Counts)
    requires |ds| == |u| && Number(u) == 0
    ensures Value(ds, u) == 0
  {
    if ds != [] {
      WorthOfNone(ds[|ds| - 1]);
      NoCoinsNoValue(ds[..|ds| - 1], u[..|ds| - 1]);
    }
  }

  /**
   Coins of a denomination are left only if those from it up cover the target, and its last coin is
   taken only if those above and the others of it do not.
   */
  lemma {:induction false} CoverIs(ds: seq<nat>, held: Counts, t: int, i: nat)
    requires |ds| == |held| && Positive(ds) && i < |ds|
    ensures var u := Cover(ds, held, t);
            && (u[i] < held[i] ==> Upper(ds, u, i) >= t)
            && (u[i] > 0 ==> Upper(ds, u, i) - ds[i] < t)
    decreases |ds|
  {
    hide Value, Worth, Upper, Cover, TakeUp;
    var n := |ds| - 1;
    var u := Cover(ds, held, t);
    var g := TakeUp(held[n], t, ds[n]);
    CoverSplits(ds, held, t);
    UpperStep(ds, u, i);
    if i < n {
      CoverIs(ds[..n], held[..n], t - Worth(g, ds[n]), i);
    } else {
      NothingAbove(ds[..n], u[..n]);
      TakeUpIs(held[n], t, ds[n]);
    }
  }

  lemma CoverSplits(ds: seq<nat>, held: Counts, t: int)
    requires |ds| == |held| && ds != []
    ensures var n := |ds| - 1; var g := TakeUp(held[n], t, ds[n]); var u := Cover(ds, held, t);
            u[n] == g && u[..n] == Cover(ds[..n], held[..n], t - Worth(g, ds[n]))
  {
    hide Worth, TakeUp;
  }

  lemma TakeUpIs(held: nat, t: int, d: nat)
    requires d > 0
    ensures TakeUp(held, t, d) < held ==> Worth(TakeUp(held, t, d), d) >= t
    ensures TakeUp(held, t, d) > 0 ==> Worth(TakeUp(held, t, d), d) - d < t
    decreases held
  {
    if t > 0 && held > 0 {
      TakeUpIs(held - 1, t - d, d);
      var g := TakeUp(held - 1, t - d, d);
      WorthMore(g, d);
      hide Worth;
      if g == 0 {
        WorthOfNone(d);
      }
    }
  }

  lemma PlainIsFewest(ds: seq<nat>, t: int, held: Counts, u: Counts)
    requires Chain(ds) && |ds| == |held| && Positive(ds) && t > 0 && Within(u, held) && Value(ds, u) >= t
    ensures Number(Plain(ds, t, held)) <= Number(u)
  {
    hide Value, Number, Single, Cover, Chain, FirstAbove;
    var first := FirstAbove(ds, held, Zeros(|ds|), t, 0);
    if first.Some? {
      SingleNumber(ds, first.value);
      ValueNeedsCoins(ds, u);
    } else {
      CoverIsFewest(ds, held, t, u);
    }
  }

  lemma SingleNumber(ds: seq<nat>, k: nat)
    requires k < |ds|
    ensures Number(Single(|ds|, k)) == 1
  {
    hide Number, Value;
    ZerosValue(ds);
    OneMore(ds, Zeros(|ds|), k);
    assert Single(|ds|, k) == Zeros(|ds|)[k := Zeros(|ds|)[k] + 1];
  }

  /** Without fMinimizeChange, calculateChange uses as few coins as can pay the target. */
  lemma CoinsAreFewest(ds: seq<nat>, maxSpends: int, t: nat, held: Counts, u: Counts)
    requires Chain(ds) && |ds| == |held| && Positive(ds) && t > 0 && Within(u, held) && Value(ds, u) >= t
    ensures Number(Calculate(ds, maxSpends, false, t, held).used) <= Number(u)
  {
    hide Minimize, Calculate, Plain, Limit, Chain, FirstAbove, Number, Value, ChangeFor;
    CalculateIs(ds, maxSpends, false, t, held);
    PlainIsFewest(ds, t, held, u);
  }

  /** A coin above the target: without fMinimizeChange it is paid with the lowest such coin alone. */
  lemma OneCoinPays(ds: seq<nat>, maxSpends: int, t: int, held: Counts, k: nat)
    requires |ds| == |held| && Positive(ds) && IsLowestAbove(ds, t, held, k)
    ensures Calculate(ds, maxSpends, false, t, held) == Choice(Number(ChangeFor(ds, ds[k] - t)), Single(|ds|, k))
    ensures Calculate(ds, maxSpends, true, t, held).change <= Number(ChangeFor(ds, ds[k] - t))
  {
    hide Minimize, HeldBelow, Number, ChangeFor, Cover, Value, Lean, Greedy;
    FirstAboveIs(ds, held, Zeros(|ds|), t, 0, k);
    var one := Choice(Number(ChangeFor(ds, ds[k] - t)), Single(|ds|, k));
    MinimizeOnlyLowers(ds, maxSpends, one, HeldBelow(held, k), t, held);
  }

  /** minimizeChange either lowers the number of coins of change or keeps the saved choice. */
  lemma MinimizeOnlyLowers(ds: seq<nat>, maxSpends: int, saved: Choice, limit: nat, t: int, held: Counts)
    requires |ds| == |held| && Positive(ds) && limit <= |ds|
    ensures var c := Minimize(ds, maxSpends, saved, limit, t, held);
            c == saved || (c.change < saved.change && Number(c.used) <= maxSpends)
  {
    hide Value, Number, ChangeFor, Greedy, Lean;
  }

  /**
   With no coin above the target, fMinimizeChange makes no difference if the least that pays the
   target can be made up of as few coins as any choice that does.
   */
  lemma FewestAndLeast(ds: seq<nat>, maxSpends: int, t: nat, held: Counts, u: Counts)
    requires Chain(ds) && |ds| == |held| && Positive(ds) && t > 0 && NoneAbove(ds, t, held)
    requires Least(ds, t, held, u) && Value(ds, u) > t && Number(u) <= maxSpends && !Skips(ds, held, Excess(ds, held, t))
    requires forall w | Within(w, held) && Value(ds, w) >= t :: Number(u) <= Number(w)
    ensures Calculate(ds, maxSpends, false, t, held) == Calculate(ds, maxSpends, true, t, held)
  {
    hide Minimize, Calculate, Limit, Skips, Excess, Chain, FirstAbove, Number, Value, ChangeFor, Cover;
    LimitIsEnough(ds, t, held);
    CalculateIs(ds, maxSpends, true, t, held);
    CalculateIs(ds, maxSpends, false, t, held);
    WithinIsWorthNoMore(ds, held, u);
    CoverReaches(ds, held, t);
    MinimizeIsLeast(ds, maxSpends, PlainChoice(ds, t, held), Limit(ds, t, held), t, held, u);
  }

  // ---------- change is paid in as few coins as possible ----------

  /** With enough of every coin, getSpendCoins does what getChange does. */
  lemma {:induction false} ChangeIsGreedy(ds: seq<nat>, held: Counts, t: int)
    requires |ds| == |held| && Positive(ds) && forall i | 0 <= i < |ds| :: held[i] >= t
    ensures ChangeFor(ds, t) == Greedy(ds, held, t)
    decreases |ds|
  {
    if ds != [] {
      hide Worth, Fit, Take;
      var n := |ds| - 1;
      TakeIsFit(held[n], t, ds[n]);
      FitIsNoMore(t, ds[n]);
      ChangeIsGreedy(ds[..n], held[..n], t - Worth(Fit(t, ds[n]), ds[n]));
    }
  }

  lemma FitIsNoMore(t: int, d: nat)
    requires d > 0
    ensures t >= 0 ==> Fit(t, d) <= t
    ensures t < 0 ==> Fit(t, d) == 0
    decreases if t < 0 then 0 else t
  {
  }

  lemma {:induction false} EachIsNoMore(ds: seq<nat>, u: Counts)
    requires |ds| == |u| && Positive(ds)
    ensures forall i | 0 <= i < |u| :: u[i] <= Value(ds, u)
  {
    if ds != [] {
      var n := |ds| - 1;
      EachIsNoMore(ds[..n], u[..n]);
      MulGrows(u[n], u[n], 1, ds[n]);
      assert forall i | 0 <= i < n :: u[i] == u[..n][i];
    }
  }

  /** getChange gives as few coins as can make up what it gives. */
  lemma ChangeIsFewest(ds: seq<nat>, t: nat, u: Counts)
    requires Chain(ds) && |ds| == |u| && Positive(ds) && Value(ds, u) == t
    ensures Value(ds, ChangeFor(ds, t)) == t && Number(ChangeFor(ds, t)) <= Number(u)
  {
    hide Value, Number, ChangeFor, Greedy, Chain;
    var held := seq(|ds|, _ => t);
    ChangeIsGreedy(ds, held, t);
    EachIsNoMore(ds, u);
    GreedyIsBest(ds, held, t, u);
  }

  // ---------- choices among lower coins only ----------

  /** The least that lower coins pay is the least that any coins held do. */
  lemma LeastOfLower(ds: seq<nat>, t: nat, held: Counts, k: nat, u: Counts)
    requires Chain(ds) && |ds| == |held| && Positive(ds) && t > 0 && IsLowestAbove(ds, t, held, k)
    requires Within(u, held) && Value(ds, u) >= t && forall i | k <= i < |ds| :: u[i] == 0
    requires forall w | Within(w, held) && Value(ds, w) >= t && (forall i | k <= i < |ds| :: w[i] == 0) :: Value(ds, u) <= Value(ds, w)
    ensures Least(ds, t, held, u)
  {
    hide Value, Chain;
    forall w | Within(w, held) && Value(ds, w) >= t ensures Value(ds, u) <= Value(ds, w) {
      if i: nat :| k <= i < |ds| && w[i] > 0 {
        CoinIsNoMore(ds, w, i);
        Ascends(ds, k, i);
        LowerPaysNoMore(ds, t, held, k, u);
      }
    }
  }

  lemma {:induction false} CoinIsNoMore(ds: seq<nat>, w: Counts, i: nat)
    requires |ds| == |w| && i < |ds| && w[i] > 0
    ensures ds[i] <= Value(ds, w)
  {
    hide Value;
    var fewer := w[i := w[i] - 1];
    OneMore(ds, fewer, i);
    assert fewer[i := fewer[i] + 1] == w;
  }

  /** Coins below a denomination, worth at least one coin of it, contain some worth just that. */
  lemma TradeLower(ds: seq<nat>, k: nat, u: Counts) returns (w: Counts)
    requires Chain(ds) && |ds| == |u| && k < |ds| && Value(ds, u) >= ds[k] && forall i | k <= i < |ds| :: u[i] == 0
    ensures Within(w, u) && Value(ds, w) == ds[k]
  {
    hide Value, Chain, Number;
    assert u == u[..k] + Zeros(|ds| - k);
    PaddingIsWorthless(ds, k, u[..k]);
    PrefixIsChain(ds, k + 1);
    assert ds[..k] + [ds[k]] == ds[..k + 1];
    var lower := TradeUp(ds[..k], u[..k], ds[k]);
    PaddingIsWorthless(ds, k, lower);
    w := lower + Zeros(|ds| - k);
    assert forall i | 0 <= i < k :: w[i] == lower[i] <= u[..k][i] == u[i];
  }

  /** If lower coins paid more than the coin above, some of them would pay just that. */
  lemma LowerPaysNoMore(ds: seq<nat>, t: nat, held: Counts, k: nat, u: Counts)
    requires Chain(ds) && |ds| == |held| && Positive(ds) && k < |ds| && t <= ds[k]
    requires Within(u, held) && forall i | k <= i < |ds| :: u[i] == 0
    requires forall w | Within(w, held) && Value(ds, w) >= t && (forall i | k <= i < |ds| :: w[i] == 0) :: Value(ds, u) <= Value(ds, w)
    ensures Value(ds, u) <= ds[k]
  {
    hide Value, Chain;
    if Value(ds, u) > ds[k] {
      var w := TradeLower(ds, k, u);
    }
  }

  lemma {:induction false} PrefixIsChain(ds: seq<nat>, k: nat)
    requires Chain(ds) && k <= |ds|
    ensures Chain(ds[..k])
  {
    if k == |ds| {
      assert ds[..k] == ds;
    } else {
      PrefixIsChain(ds[..|ds| - 1], k);
      assert ds[..|ds| - 1][..k] == ds[..k];
    }
  }
}
