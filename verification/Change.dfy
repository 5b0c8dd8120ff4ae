/** Choosing coins worth at least a target, with as few coins of change as can be had. */
module Change {
  import opened Arithmetic
  import opened Wrappers
  import opened Denominations

  // ---------- change ----------

  function Fit(t: int, d: nat): (g: nat)
    requires d > 0
    ensures (t >= 0 ==> Worth(g, d) <= t) && (t < d ==> g == 0)
    ensures t - Worth(g, d) < d
    decreases if t < 0 then 0 else t
  {
    if t >= d then
      var g := Fit(t - d, d);
      assert (g + 1) * d == g * d + d;
      g + 1
    else 0
  }

  /** getChange: greedy without limits, ignoring what is smaller than the smallest coin. */
  function ChangeFor(ds: seq<nat>, t: int): (u: Counts)
    requires Positive(ds)
    ensures |u| == |ds|
  {
    if ds == [] then [] else
      var n := |ds| - 1;
      var g := Fit(t, ds[n]);
      ChangeFor(ds[..n], t - Worth(g, ds[n])) + [g]
  }

  predicate Positive(ds: seq<nat>) {
    forall i | 0 <= i < |ds| :: ds[i] > 0
  }

  lemma ChangeStep(ds: seq<nat>, t: int)
    requires Positive(ds) && ds != []
    ensures var n := |ds| - 1; var g := Fit(t, ds[n]); var low := ChangeFor(ds[..n], t - Worth(g, ds[n]));
            && ChangeFor(ds, t) == low + [g]
            && Value(ds, ChangeFor(ds, t)) == Value(ds[..n], low) + Worth(g, ds[n])
            && Number(ChangeFor(ds, t)) == Number(low) + g
  {
    hide Fit, Worth;
    var n := |ds| - 1;
    var g := Fit(t, ds[n]);
    var low := ChangeFor(ds[..n], t - Worth(g, ds[n]));
    hide Value, Number;
    ValueStep(ds, low, g);
    NumberStep(low, g);
  }

  lemma {:induction false} ChangeNeverExceeds(ds: seq<nat>, t: int)
    requires Positive(ds)
    ensures t >= 0 ==> Value(ds, ChangeFor(ds, t)) <= t
    ensures t < 0 ==> Value(ds, ChangeFor(ds, t)) == 0 && Number(ChangeFor(ds, t)) == 0
  {
    if ds != [] {
      hide Worth, ChangeFor, Value, Number;
      var n := |ds| - 1;
      var g := Fit(t, ds[n]);
      ChangeStep(ds, t);
      WorthOfNone(ds[n]);
      ChangeNeverExceeds(ds[..n], t - Worth(g, ds[n]));
    }
  }

  /** Change in whole lowest coins is exact. */
  lemma {:induction false} ChangeIsExact(ds: seq<nat>, t: nat)
    requires Chain(ds) && Positive(ds) && ds != [] && Multiple(ds[0], t)
    ensures Value(ds, ChangeFor(ds, t)) == t
    decreases |ds|
  {
    var n := |ds| - 1;
    var d := ds[n];
    var g := Fit(t, d);
    var rest := t - Worth(g, d);
    assert ChangeFor(ds, t)[..n] == ChangeFor(ds[..n], rest);
    LowestDivides(ds);
    TimesMultiple(ds[0], d, g);
    MultipleDiff(ds[0], t, Worth(g, d));
    hide Worth;
    if n == 0 {
      SmallMultiple(d, rest);
    } else {
      ChangeIsExact(ds[..n], rest);
    }
  }

  lemma TimesMultiple(c: nat, d: nat, g: nat)
    requires Multiple(c, d)
    ensures Multiple(c, Worth(g, d))
  {
    assert Worth(g, d) == g * d;
    MultipleOfMultiple(c, d, Worth(g, d));
  }

  lemma MultipleDiff(d: nat, a: nat, b: nat)
    requires Multiple(d, a) && Multiple(d, b) && b <= a
    ensures Multiple(d, a - b)
  {
    var p: nat :| a == p * d;
    var q: nat :| b == q * d;
    MulDiff(p, q, d);
    if p < q {
      MulLess(p, q, d);
      assert a - b == 0 * d;
    } else {
      assert a - b == (p - q) * d;
    }
  }

  lemma SmallMultiple(d: nat, t: nat)
    requires Multiple(d, t) && t < d
    ensures t == 0
  {
    var q: nat :| t == q * d;
    if q > 0 {
      MulLess(0, q, d);
    }
  }

  lemma {:induction false} LowestDivides(ds: seq<nat>)
    requires Chain(ds) && ds != []
    ensures Multiple(ds[0], ds[|ds| - 1])
  {
    var n := |ds| - 1;
    if n == 0 {
      assert ds[0] == 1 * ds[0];
    } else {
      LowestDivides(ds[..n]);
      MultipleOfMultiple(ds[0], ds[n - 1], ds[n]);
    }
  }

  // ---------- the two passes of minimizeChange ----------

  /** As many coins as leave something to pay: the strict comparison of the first pass. */
  function TakeBelow(held: nat, t: int, d: nat): (g: nat)
    requires d > 0
    ensures g <= held && (t > 0 ==> Worth(g, d) < t) && (t <= 0 ==> g == 0)
    ensures g == held || t - Worth(g, d) <= d
    decreases held
  {
    if t > d && held > 0 then
      var g := TakeBelow(held - 1, t - d, d);
      assert (g + 1) * d == g * d + d;
      g + 1
    else 0
  }

  function Climb(ds: seq<nat>, held: Counts, t: int): (u: Counts)
    requires |ds| == |held| && Positive(ds)
    ensures Within(u, held)
    decreases |ds|
  {
    if ds == [] then [] else
      var n := |ds| - 1;
      var g := TakeBelow(held[n], t, ds[n]);
      Climb(ds[..n], held[..n], t - Worth(g, ds[n])) + [g]
  }

  /** The first pass, which looks only at the first `limit` denominations. */
  function ClimbUpTo(ds: seq<nat>, limit: nat, held: Counts, t: int): (u: Counts)
    requires |ds| == |held| && Positive(ds) && limit <= |ds|
    ensures Within(u, held) && forall i | limit <= i < |u| :: u[i] == 0
  {
    Climb(ds[..limit], held[..limit], t) + Zeros(|ds| - limit)
  }

  lemma ClimbStep(ds: seq<nat>, held: Counts, t: int)
    requires |ds| == |held| && Positive(ds) && ds != []
    ensures var n := |ds| - 1; var g := TakeBelow(held[n], t, ds[n]); var low := Climb(ds[..n], held[..n], t - Worth(g, ds[n]));
            Climb(ds, held, t) == low + [g] && Value(ds, Climb(ds, held, t)) == Value(ds[..n], low) + Worth(g, ds[n])
  {
    hide Worth, TakeBelow;
    var n := |ds| - 1;
    var g := TakeBelow(held[n], t, ds[n]);
    var low := Climb(ds[..n], held[..n], t - Worth(g, ds[n]));
    hide Value;
    ValueStep(ds, low, g);
  }

  lemma {:induction false} ClimbStaysBelow(ds: seq<nat>, held: Counts, t: int)
    requires |ds| == |held| && Positive(ds) && t > 0
    ensures Value(ds, Climb(ds, held, t)) < t
    decreases |ds|
  {
    if ds != [] {
      hide Worth, TakeBelow, Climb, Value;
      var n := |ds| - 1;
      ClimbStep(ds, held, t);
      ClimbStaysBelow(ds[..n], held[..n], t - Worth(TakeBelow(held[n], t, ds[n]), ds[n]));
    }
  }

  lemma {:induction false} PaddingIsWorthless(ds: seq<nat>, limit: nat, u: Counts)
    requires limit <= |ds| && |u| == limit
    ensures Value(ds, u + Zeros(|ds| - limit)) == Value(ds[..limit], u)
    decreases |ds| - limit
  {
    var n := |ds|;
    if limit == n {
      assert ds[..limit] == ds && u + Zeros(0) == u;
    } else {
      var padded := u + Zeros(n - limit);
      PaddingIsWorthless(ds[..n - 1], limit, u);
      assert padded[..n - 1] == u + Zeros(n - 1 - limit);
      assert ds[..n - 1][..limit] == ds[..limit];
    }
  }

  lemma UnheldStep(ds: seq<nat>, held: Counts, t: int)
    requires |ds| == |held| && Positive(ds) && ds != [] && held[|ds| - 1] == 0
    ensures Climb(ds, held, t) == Climb(ds[..|ds| - 1], held[..|ds| - 1], t) + [0]
  {
    hide Worth, TakeBelow, Climb, Value;
    ClimbStep(ds, held, t);
    WorthOfNone(ds[|ds| - 1]);
  }

  /** Coins of which none are held might as well not be looked at. */
  lemma {:induction false} ClimbSkipsUnheld(ds: seq<nat>, limit: nat, held: Counts, t: int)
    requires |ds| == |held| && Positive(ds) && limit <= |ds| && forall i | limit <= i < |ds| :: held[i] == 0
    ensures ClimbUpTo(ds, limit, held, t) == Climb(ds, held, t)
    decreases |ds| - limit
  {
    hide Climb;
    var n := |ds|;
    if limit == n {
      assert ds[..limit] == ds && held[..limit] == held;
    } else {
      UnheldStep(ds, held, t);
      ClimbSkipsUnheld(ds[..n - 1], limit, held[..n - 1], t);
      assert ds[..n - 1][..limit] == ds[..limit] && held[..n - 1][..limit] == held[..limit];
      assert Zeros(n - limit) == Zeros(n - 1 - limit) + [0];
    }
  }

  /** The lowest denomination above the amount with a coin to spare. */
  function FirstAbove(ds: seq<nat>, held: Counts, used: Counts, t: int, from: nat): (k: Option<nat>)
    requires |ds| == |held| == |used| && from <= |ds|
    ensures k.Some? ==> k.value < |ds| && ds[k.value] > t && used[k.value] < held[k.value]
    ensures k.None? ==> forall i | from <= i < |ds| :: !(ds[i] > t && used[i] < held[i])
    decreases |ds| - from
  {
    if from == |ds| then None
    else if ds[from] > t && used[from] < held[from] then Some(from)
    else FirstAbove(ds, held, used, t, from + 1)
  }

  /** The second pass tops the first up with one coin; once nothing remains to pay it stops at the lowest. */
  function TopUp(ds: seq<nat>, held: Counts, used: Counts, t: int): (u: Counts)
    requires |ds| == |held| == |used| && Within(used, held)
    ensures Within(u, held)
  {
    match FirstAbove(ds, held, used, t, 0)
    case None => used
    case Some(k) => if t < 0 && k > 0 then used else used[k := used[k] + 1]
  }

  function Common(a: Counts, b: Counts): (c: Counts)
    requires |a| == |b|
    ensures Within(c, a) && Within(c, b)
  {
    seq(|a|, i requires 0 <= i < |a| => if a[i] < b[i] then a[i] else b[i])
  }

  /** The coins chosen by the two passes, less those that would come straight back as change. */
  function Lean(ds: seq<nat>, limit: nat, held: Counts, t: int): (u: Counts)
    requires |ds| == |held| && Positive(ds) && limit <= |ds|
    ensures Within(u, held)
  {
    var low := ClimbUpTo(ds, limit, held, t);
    var high := TopUp(ds, held, low, t - Value(ds, low));
    Minus(high, Common(ChangeFor(ds, Value(ds, high) - t), high))
  }

  datatype Choice = Choice(change: nat, used: Counts)

  function Minimize(ds: seq<nat>, maxSpends: int, saved: Choice, limit: nat, t: int, held: Counts): (c: Choice)
    requires |ds| == |held| && Positive(ds) && limit <= |ds|
    ensures |saved.used| == |ds| ==> |c.used| == |ds|
  {
    var amount := Value(ds, Lean(ds, limit, held, t));
    var used := Greedy(ds, held, amount);
    var change := Number(ChangeFor(ds, amount - t));
    if change < saved.change && Number(used) <= maxSpends then Choice(change, used) else saved
  }

  lemma {:induction false} WithinIsWorthNoMore(ds: seq<nat>, u: Counts, w: Counts)
    requires |ds| == |u| && Within(w, u)
    ensures Value(ds, w) <= Value(ds, u)
  {
    MinusValue(ds, u, w);
  }

  /** Taking the overlap with the change out of a choice leaves the target paid. */
  lemma TrimStillPays(ds: seq<nat>, high: Counts, t: int)
    requires |ds| == |high| && Positive(ds) && Value(ds, high) >= t
    ensures Value(ds, Minus(high, Common(ChangeFor(ds, Value(ds, high) - t), high))) >= t
  {
    hide Value, ChangeFor, Positive;
    var change := ChangeFor(ds, Value(ds, high) - t);
    ChangeNeverExceeds(ds, Value(ds, high) - t);
    WithinIsWorthNoMore(ds, change, Common(change, high));
    MinusValue(ds, high, Common(change, high));
  }

  lemma FirstPassStaysBelow(ds: seq<nat>, limit: nat, held: Counts, t: int)
    requires |ds| == |held| && Positive(ds) && limit <= |ds| && t > 0
    ensures Value(ds, ClimbUpTo(ds, limit, held, t)) < t
  {
    ClimbStaysBelow(ds[..limit], held[..limit], t);
    PaddingIsWorthless(ds, limit, Climb(ds[..limit], held[..limit], t));
  }

  lemma TopUpPays(ds: seq<nat>, held: Counts, low: Counts, t: int)
    requires |ds| == |held| && Within(low, held) && Value(ds, low) < t
    requires FirstAbove(ds, held, low, t - Value(ds, low), 0).Some?
    ensures Value(ds, TopUp(ds, held, low, t - Value(ds, low))) >= t
  {
    hide Value, FirstAbove;
    OneMore(ds, low, FirstAbove(ds, held, low, t - Value(ds, low), 0).value);
  }

  lemma LeanStillPays(ds: seq<nat>, limit: nat, held: Counts, t: int)
    requires |ds| == |held| && Positive(ds) && limit <= |ds| && t > 0
    requires var low := ClimbUpTo(ds, limit, held, t); FirstAbove(ds, held, low, t - Value(ds, low), 0).Some?
    ensures Value(ds, Lean(ds, limit, held, t)) >= t
  {
    hide Value, ChangeFor, ClimbUpTo, FirstAbove, TopUp;
    var low := ClimbUpTo(ds, limit, held, t);
    FirstPassStaysBelow(ds, limit, held, t);
    TopUpPays(ds, held, low, t);
    TrimStillPays(ds, TopUp(ds, held, low, t - Value(ds, low)), t);
  }

  /** A choice that pays the target with coins that are held, and says truly how many coins come back. */
  predicate Sound(ds: seq<nat>, t: int, held: Counts, c: Choice)
    requires |ds| == |held| && Positive(ds)
  {
    Within(c.used, held) && Value(ds, c.used) >= t && c.change == Number(ChangeFor(ds, Value(ds, c.used) - t))
  }

  /** No coin to spare is worth more than what the first pass leaves to pay. */
  predicate NoneFinishes(ds: seq<nat>, limit: nat, t: int, held: Counts)
    requires |ds| == |held| && Positive(ds) && limit <= |ds|
  {
    var low := ClimbUpTo(ds, limit, held, t);
    FirstAbove(ds, held, low, t - Value(ds, low), 0).None?
  }

  /** Then the two passes end where the first one did: short of the target, with nothing to come back. */
  lemma LeanIsLow(ds: seq<nat>, limit: nat, t: int, held: Counts)
    requires |ds| == |held| && Positive(ds) && limit <= |ds| && t > 0 && NoneFinishes(ds, limit, t, held)
    ensures Lean(ds, limit, held, t) == ClimbUpTo(ds, limit, held, t)
    ensures Value(ds, Lean(ds, limit, held, t)) < t
  {
    hide Value, ChangeFor, ClimbUpTo, FirstAbove, Number;
    var low := ClimbUpTo(ds, limit, held, t);
    FirstPassStaysBelow(ds, limit, held, t);
    NoChangeOfNegative(ds, Value(ds, low) - t);
    assert Common(Zeros(|ds|), low) == Zeros(|ds|);
    assert Minus(low, Zeros(|ds|)) == low;
  }

  lemma {:induction false} NoChangeOfNegative(ds: seq<nat>, t: int)
    requires Positive(ds) && t <= 0
    ensures ChangeFor(ds, t) == Zeros(|ds|)
  {
    if ds != [] {
      var n := |ds| - 1;
      assert Fit(t, ds[n]) == 0 && t - Worth(0, ds[n]) == t;
      NoChangeOfNegative(ds[..n], t);
      assert Zeros(n) + [0] == Zeros(n + 1);
    }
  }

  /**
   What minimizeChange returns pays the target and returns the number of coins it says, unless no
   coin finishes the second pass, the saved choice had change, and what the first pass found is few
   enough coins to be taken instead.
   */
  lemma MinimizeIsSound(ds: seq<nat>, maxSpends: int, saved: Choice, limit: nat, t: int, held: Counts)
    requires Chain(ds) && |ds| == |held| && Positive(ds) && limit <= |ds| && t > 0
    requires Sound(ds, t, held, saved)
    ensures Sound(ds, t, held, Minimize(ds, maxSpends, saved, limit, t, held)) <==>
            !(NoneFinishes(ds, limit, t, held) && saved.change > 0
              && Number(Greedy(ds, held, Value(ds, ClimbUpTo(ds, limit, held, t)))) <= maxSpends)
    ensures Minimize(ds, maxSpends, saved, limit, t, held).change <= saved.change
  {
    hide Value, ChangeFor, ClimbUpTo, FirstAbove, Greedy, Lean, Number, Chain, Positive, NoneFinishes, Sound, Within;
    if saved.change > 0 {
      if NoneFinishes(ds, limit, t, held) {
        UnfinishedIsShort(ds, t, held, limit);
      } else {
        LeanPays(ds, limit, held, t);
      }
    }
  }

  /** If the second pass finishes, what is met exactly afterwards pays the target. */
  lemma LeanPays(ds: seq<nat>, limit: nat, held: Counts, t: int)
    requires Chain(ds) && |ds| == |held| && Positive(ds) && limit <= |ds| && t > 0 && !NoneFinishes(ds, limit, t, held)
    ensures var amount := Value(ds, Lean(ds, limit, held, t));
            Sound(ds, t, held, Choice(Number(ChangeFor(ds, amount - t)), Greedy(ds, held, amount)))
  {
    hide Value, ChangeFor, ClimbUpTo, FirstAbove, Greedy, Lean, Number, Chain;
    var lean := Lean(ds, limit, held, t);
    LeanStillPays(ds, limit, held, t);
    GreedyIsBest(ds, held, Value(ds, lean), lean);
  }

  /** If it does not, what is met exactly is too little, and nothing comes back. */
  lemma UnfinishedIsShort(ds: seq<nat>, t: int, held: Counts, limit: nat)
    requires Chain(ds) && |ds| == |held| && Positive(ds) && limit <= |ds| && t > 0 && NoneFinishes(ds, limit, t, held)
    ensures var amount := Value(ds, Lean(ds, limit, held, t)); var used := Greedy(ds, held, amount);
            && amount == Value(ds, ClimbUpTo(ds, limit, held, t)) && Number(ChangeFor(ds, amount - t)) == 0
            && forall change :: !Sound(ds, t, held, Choice(change, used))
  {
    hide Value, ChangeFor, ClimbUpTo, FirstAbove, Greedy, Lean, Number, Chain;
    var lean := Lean(ds, limit, held, t);
    LeanIsLow(ds, limit, t, held);
    ChangeNeverExceeds(ds, Value(ds, lean) - t);
    GreedyIsBest(ds, held, Value(ds, lean), lean);
  }

  // ---------- calculateChange ----------

  /** One past the highest of the first n denominations that is held; 0 if none is. */
  function HeldBelow(held: Counts, n: nat): (limit: nat)
    requires n <= |held|
    ensures limit <= n && forall i | limit <= i < n :: held[i] == 0
    ensures limit > 0 ==> held[limit - 1] > 0
  {
    if n == 0 then 0 else if held[n - 1] != 0 then n else HeldBelow(held, n - 1)
  }

  function TakeUp(held: nat, t: int, d: nat): (g: nat)
    ensures g <= held && (t <= 0 ==> g == 0)
    ensures g == held || t - Worth(g, d) <= 0
    decreases held
  {
    if t > 0 && held > 0 then
      var g := TakeUp(held - 1, t - d, d);
      assert (g + 1) * d == g * d + d;
      g + 1
    else 0
  }

  /** The choice from the highest denomination down until the amount is covered. */
  function Cover(ds: seq<nat>, held: Counts, t: int): (u: Counts)
    requires |ds| == |held|
    ensures Within(u, held)
    decreases |ds|
  {
    if ds == [] then [] else
      var n := |ds| - 1;
      var g := TakeUp(held[n], t, ds[n]);
      Cover(ds[..n], held[..n], t - Worth(g, ds[n])) + [g]
  }

  lemma {:induction false} CoverReaches(ds: seq<nat>, held: Counts, t: int)
    requires |ds| == |held| && Value(ds, held) >= t
    ensures Value(ds, Cover(ds, held, t)) >= t
    decreases |ds|
  {
    if ds != [] {
      var n := |ds| - 1;
      var g := TakeUp(held[n], t, ds[n]);
      assert Cover(ds, held, t)[..n] == Cover(ds[..n], held[..n], t - Worth(g, ds[n]));
      hide Worth;
      if g == held[n] {
        CoverReaches(ds[..n], held[..n], t - Worth(g, ds[n]));
      }
    }
  }

  lemma {:induction false} NothingToCover(ds: seq<nat>, held: Counts)
    requires |ds| == |held|
    ensures Value(ds, Cover(ds, held, 0)) == 0
    decreases |ds|
  {
    if ds != [] {
      var n := |ds| - 1;
      WorthOfNone(ds[n]);
      hide Worth;
      NothingToCover(ds[..n], held[..n]);
      assert Cover(ds, held, 0)[..n] == Cover(ds[..n], held[..n], 0);
    }
  }

  /** Every coin to spare is worth no more than what the first pass leaves. */
  predicate Stuck(ds: seq<nat>, held: Counts, used: Counts, rest: int)
    requires |ds| == |held| == |used|
  {
    forall i | 0 <= i < |ds| :: used[i] < held[i] ==> ds[i] <= rest
  }

  /** The first pass stops one coin early, and Cover takes that coin. */
  lemma {:induction false} StopsOneEarly(held: nat, t: nat, d: nat)
    requires d > 0 && t > 0 && TakeBelow(held, t, d) < held && t - Worth(TakeBelow(held, t, d), d) == d
    ensures TakeUp(held, t, d) == TakeBelow(held, t, d) + 1
    ensures Worth(TakeUp(held, t, d), d) == t
    decreases held
  {
    hide Worth;
    WorthMore(TakeBelow(held, t, d), d);
    if t > d {
      WorthMore(TakeBelow(held - 1, t - d, d), d);
      StopsOneEarly(held - 1, t - d, d);
    } else {
      WorthOfNone(d);
      assert TakeUp(held - 1, t - d, d) == 0;
    }
  }

  lemma TakesAll(held: nat, t: nat, d: nat)
    requires d > 0 && t > 0 && TakeBelow(held, t, d) == held
    ensures TakeUp(held, t, d) == held
    decreases held
  {
    if held > 0 {
      TakesAll(held - 1, t - d, d);
    }
  }

  lemma StuckAtTop(ds: seq<nat>, held: Counts, t: nat, g: nat, low: Counts)
    requires ds != [] && |ds| == |held| && Positive(ds) && t > 0
    requires var n := |ds| - 1;
             g == TakeBelow(held[n], t, ds[n]) && g < held[n] && |low| == n && ds[n] <= t - Worth(g, ds[n]) - Value(ds[..n], low)
    ensures Value(ds, Cover(ds, held, t)) == t
  {
    var n := |ds| - 1;
    StopsOneEarly(held[n], t, ds[n]);
    var up := TakeUp(held[n], t, ds[n]);
    assert Cover(ds, held, t)[..n] == Cover(ds[..n], held[..n], t - Worth(up, ds[n]));
    NothingToCover(ds[..n], held[..n]);
  }

  lemma StuckBelow(ds: seq<nat>, held: Counts, used: Counts, rest: int)
    requires |ds| == |held| == |used| && ds != [] && Stuck(ds, held, used, rest)
    ensures Stuck(ds[..|ds| - 1], held[..|ds| - 1], used[..|ds| - 1], rest)
    ensures used[|ds| - 1] < held[|ds| - 1] ==> ds[|ds| - 1] <= rest
  {
  }

  /** What the first pass leaves at one denomination, and what is left for the lower ones. */
  lemma StuckStep(ds: seq<nat>, held: Counts, t: nat)
    requires |ds| == |held| && Positive(ds) && ds != [] && t > 0 && Value(ds, held) >= t
    requires Stuck(ds, held, Climb(ds, held, t), t - Value(ds, Climb(ds, held, t)))
    ensures var n := |ds| - 1; var g := TakeBelow(held[n], t, ds[n]); var low := Climb(ds[..n], held[..n], t - Worth(g, ds[n]));
            && t - Worth(g, ds[n]) > 0
            && Stuck(ds[..n], held[..n], low, t - Worth(g, ds[n]) - Value(ds[..n], low))
            && (g < held[n] ==> ds[n] <= t - Worth(g, ds[n]) - Value(ds[..n], low))
            && (g == held[n] ==> Value(ds[..n], held[..n]) >= t - Worth(g, ds[n]))
  {
    hide Worth, TakeBelow, Stuck, Climb, Value;
    var n := |ds| - 1;
    var g := TakeBelow(held[n], t, ds[n]);
    var low := Climb(ds[..n], held[..n], t - Worth(g, ds[n]));
    ClimbStep(ds, held, t);
    ValueStep(ds, low, g);
    ValueStep(ds, held[..n], held[n]);
    assert held[..n] + [held[n]] == held && (low + [g])[..n] == low;
    StuckBelow(ds, held, low + [g], t - Value(ds, low + [g]));
  }

  lemma CoverStep(ds: seq<nat>, held: Counts, t: nat)
    requires |ds| == |held| && Positive(ds) && ds != [] && t > 0
    requires TakeBelow(held[|ds| - 1], t, ds[|ds| - 1]) == held[|ds| - 1]
    ensures var n := |ds| - 1; var g := held[n];
            Value(ds, Cover(ds, held, t)) == Value(ds[..n], Cover(ds[..n], held[..n], t - Worth(g, ds[n]))) + Worth(g, ds[n])
  {
    var n := |ds| - 1;
    TakesAll(held[n], t, ds[n]);
    hide Worth, TakeBelow;
    var u := Cover(ds, held, t);
    assert u[..n] == Cover(ds[..n], held[..n], t - Worth(held[n], ds[n]));
  }

  /** If the first pass leaves only coins too small to finish with, the amount can be met exactly. */
  lemma {:induction false} StuckIsExact(ds: seq<nat>, held: Counts, t: nat)
    requires |ds| == |held| && Positive(ds) && t > 0 && Value(ds, held) >= t
    requires Stuck(ds, held, Climb(ds, held, t), t - Value(ds, Climb(ds, held, t)))
    ensures Value(ds, Cover(ds, held, t)) == t
    decreases |ds|
  {
    if ds != [] {
      StuckStepThen(ds, held, t);
    }
  }

  lemma {:induction false} StuckStepThen(ds: seq<nat>, held: Counts, t: nat)
    requires |ds| == |held| && Positive(ds) && ds != [] && t > 0 && Value(ds, held) >= t
    requires Stuck(ds, held, Climb(ds, held, t), t - Value(ds, Climb(ds, held, t)))
    ensures Value(ds, Cover(ds, held, t)) == t
    decreases |ds|, 0
  {
    hide Worth, TakeUp, TakeBelow, Stuck, Cover, Climb, Value;
    StuckStep(ds, held, t);
    var n := |ds| - 1;
    var g := TakeBelow(held[n], t, ds[n]);
    var rest := t - Worth(g, ds[n]);
    if g < held[n] {
      StuckAtTop(ds, held, t, g, Climb(ds[..n], held[..n], rest));
    } else {
      CoverStep(ds, held, t);
      StuckIsExact(ds[..n], held[..n], rest);
    }
  }

  function Single(n: nat, k: nat): (u: Counts)
    requires k < n
    ensures |u| == n && forall i | 0 <= i < n :: u[i] == if i == k then 1 else 0
  {
    Zeros(n)[k := 1]
  }

  /** calculateChange */
  function Calculate(ds: seq<nat>, maxSpends: int, minimize: bool, t: int, held: Counts): (c: Choice)
    requires |ds| == |held| && Positive(ds)
    ensures |c.used| == |ds|
  {
    var n := |ds|;
    match FirstAbove(ds, held, Zeros(n), t, 0)
    case Some(k) =>
      var one := Choice(Number(ChangeFor(ds, ds[k] - t)), Single(n, k));
      if minimize then Minimize(ds, maxSpends, one, HeldBelow(held, k), t, held) else one
    case None =>
      var used := Cover(ds, held, t);
      var plain := Choice(Number(ChangeFor(ds, Value(ds, used) - t)), used);
      var better := Minimize(ds, maxSpends, plain, HeldBelow(held, n), t, held);
      if !minimize && Number(used) < Number(better.used) then plain else better
  }

  lemma OneCoinIsSound(ds: seq<nat>, t: int, held: Counts, k: nat)
    requires |ds| == |held| && Positive(ds) && k < |ds| && ds[k] > t && held[k] > 0
    ensures Sound(ds, t, held, Choice(Number(ChangeFor(ds, ds[k] - t)), Single(|ds|, k)))
  {
    ZerosValue(ds);
    OneMore(ds, Zeros(|ds|), k);
    hide Value;
    assert Single(|ds|, k) == Zeros(|ds|)[k := Zeros(|ds|)[k] + 1];
  }

  /** With a held coin above the target, the second pass always finds one to finish with. */
  lemma OneCoinFinishes(ds: seq<nat>, t: int, held: Counts, k: nat, limit: nat)
    requires |ds| == |held| && Positive(ds) && limit <= k < |ds| && ds[k] > t && held[k] > 0
    ensures var low := ClimbUpTo(ds, limit, held, t); FirstAbove(ds, held, low, t - Value(ds, low), 0).Some?
  {
    var low := ClimbUpTo(ds, limit, held, t);
    assert low[k] == 0;
    hide ClimbUpTo, Value;
    assert ds[k] > t - Value(ds, low) && low[k] < held[k];
  }

  /** Without one, either the second pass finds a coin or the plain choice is exact. */
  lemma FinishesOrExact(ds: seq<nat>, t: nat, held: Counts)
    requires |ds| == |held| && Positive(ds) && t > 0 && Value(ds, held) >= t
    ensures var low := ClimbUpTo(ds, HeldBelow(held, |ds|), held, t);
            FirstAbove(ds, held, low, t - Value(ds, low), 0).Some? || Value(ds, Cover(ds, held, t)) == t
  {
    hide HeldBelow, ClimbUpTo, Climb, Cover, Value;
    ClimbSkipsUnheld(ds, HeldBelow(held, |ds|), held, t);
    var low := ClimbUpTo(ds, HeldBelow(held, |ds|), held, t);
    if FirstAbove(ds, held, low, t - Value(ds, low), 0).None? {
      StuckIsExact(ds, held, t);
    }
  }

  lemma ExactHasNoChange(ds: seq<nat>)
    requires Positive(ds)
    ensures Number(ChangeFor(ds, 0)) == 0
  {
    ChangeNeverExceeds(ds, 0);
    NoValueNoCoins(ds, ChangeFor(ds, 0));
  }

  lemma {:induction false} NoValueNoCoins(ds: seq<nat>, u: Counts)
    requires |ds| == |u| && Positive(ds) && Value(ds, u) == 0
    ensures Number(u) == 0
  {
    if ds != [] {
      var n := |ds| - 1;
      if u[n] > 0 {
        MulLess(0, u[n], ds[n]);
      }
      NoValueNoCoins(ds[..n], u[..n]);
    }
  }

  lemma OneCoinCaseIsSound(ds: seq<nat>, maxSpends: int, t: int, held: Counts, k: nat)
    requires Chain(ds) && |ds| == |held| && Positive(ds) && t > 0 && k < |ds| && ds[k] > t && held[k] > 0
    ensures var one := Choice(Number(ChangeFor(ds, ds[k] - t)), Single(|ds|, k));
            Sound(ds, t, held, one) && Sound(ds, t, held, Minimize(ds, maxSpends, one, HeldBelow(held, k), t, held))
  {
    hide Minimize, Value, Number, ChangeFor, Chain, Single, Sound, ClimbUpTo;
    OneCoinIsSound(ds, t, held, k);
    OneCoinFinishes(ds, t, held, k, HeldBelow(held, k));
    MinimizeIsSound(ds, maxSpends, Choice(Number(ChangeFor(ds, ds[k] - t)), Single(|ds|, k)), HeldBelow(held, k), t, held);
  }

  lemma CoverCaseIsSound(ds: seq<nat>, maxSpends: int, t: int, held: Counts)
    requires Chain(ds) && |ds| == |held| && Positive(ds) && t > 0 && Value(ds, held) >= t
    ensures var used := Cover(ds, held, t);
            var plain := Choice(Number(ChangeFor(ds, Value(ds, used) - t)), used);
            Sound(ds, t, held, plain) && Sound(ds, t, held, Minimize(ds, maxSpends, plain, HeldBelow(held, |ds|), t, held))
  {
    hide Minimize, Value, Number, ChangeFor, Chain, Sound, ClimbUpTo, Cover;
    var used := Cover(ds, held, t);
    CoverReaches(ds, held, t);
    PlainIsSound(ds, t, held, used);
    FinishesOrExact(ds, t, held);
    ExactHasNoChange(ds);
    MinimizeIsSound(ds, maxSpends, Choice(Number(ChangeFor(ds, Value(ds, used) - t)), used), HeldBelow(held, |ds|), t, held);
  }

  lemma PlainIsSound(ds: seq<nat>, t: int, held: Counts, used: Counts)
    requires |ds| == |held| && Positive(ds) && Within(used, held) && Value(ds, used) >= t
    ensures Sound(ds, t, held, Choice(Number(ChangeFor(ds, Value(ds, used) - t)), used))
  {
  }

  /**
   For every target and every stock worth at least that much, the coins calculateChange chooses
   are held, pay the target, and come with exactly as many coins of change as it returns.
   */
  lemma CalculateIsSound(ds: seq<nat>, maxSpends: int, minimize: bool, t: int, held: Counts)
    requires Chain(ds) && |ds| == |held| && Positive(ds) && t > 0 && Value(ds, held) >= t
    ensures Sound(ds, t, held, Calculate(ds, maxSpends, minimize, t, held))
  {
    hide Minimize, Value, Number, ChangeFor, Chain, Single, Sound, Cover, HeldBelow, FirstAbove;
    var first := FirstAbove(ds, held, Zeros(|ds|), t, 0);
    if first.Some? {
      OneCoinCaseIsSound(ds, maxSpends, t, held, first.value);
    } else {
      CoverCaseIsSound(ds, maxSpends, t, held);
    }
  }

  // ---------- when calculateChange returns no change ----------

  lemma {:induction false} LowestIsLeast(ds: seq<nat>)
    requires Chain(ds) && ds != []
    ensures 0 < ds[0] <= ds[|ds| - 1]
  {
    if |ds| > 1 {
      LowestIsLeast(ds[..|ds| - 1]);
    }
  }

  lemma WorthSomething(ds: seq<nat>, held: Counts)
    requires |ds| == |held| && Value(ds, held) > 0
    ensures ds != []
  {
  }

  /** Nothing comes back exactly of amounts below the lowest coin. */
  lemma {:induction false} SmallChangeIsNone(ds: seq<nat>, t: nat)
    requires Chain(ds) && Positive(ds) && ds != []
    ensures Number(ChangeFor(ds, t)) == 0 <==> t < ds[0]
    decreases |ds|
  {
    ChainPrefix(ds);
    LowestIsLeast(ds);
    hide Worth, ChangeFor, Number, Chain, Value;
    var n := |ds| - 1;
    var g := Fit(t, ds[n]);
    ChangeStep(ds, t);
    WorthOfNone(ds[n]);
    if t < ds[n] {
      if n > 0 {
        SmallChangeIsNone(ds[..n], t);
      } else {
        NothingBack(t);
      }
    }
  }

  lemma NothingBack(t: int)
    ensures Number(ChangeFor([], t)) == 0
  {
  }

  lemma {:induction false} ValueIsMultiple(ds: seq<nat>, u: Counts, c: nat)
    requires |ds| == |u| && forall i | 0 <= i < |ds| :: Multiple(c, ds[i])
    ensures Multiple(c, Value(ds, u))
    decreases |ds|
  {
    if ds == [] {
      assert Value(ds, u) == 0 * c;
    } else {
      var n := |ds| - 1;
      ValueIsMultiple(ds[..n], u[..n], c);
      TimesMultiple(c, ds[n], u[n]);
      SumIsMultiple(c, Value(ds[..n], u[..n]), Worth(u[n], ds[n]));
    }
  }

  lemma SumIsMultiple(c: nat, a: nat, b: nat)
    requires Multiple(c, a) && Multiple(c, b)
    ensures Multiple(c, a + b)
  {
    var p: nat :| a == p * c;
    var q: nat :| b == q * c;
    assert a + b == (p + q) * c;
  }

  lemma {:induction false} AllAreMultiples(ds: seq<nat>, i: nat)
    requires Chain(ds) && i < |ds|
    ensures Multiple(ds[0], ds[i])
    decreases |ds|
  {
    if i == |ds| - 1 {
      LowestDivides(ds);
    } else {
      AllAreMultiples(ds[..|ds| - 1], i);
    }
  }

  /** For a target in whole lowest coins, no coins come back exactly if the choice is exact. */
  lemma NoChangeIsExact(ds: seq<nat>, t: nat, u: Counts)
    requires Chain(ds) && Positive(ds) && ds != [] && |u| == |ds| && Multiple(ds[0], t) && Value(ds, u) >= t
    ensures Number(ChangeFor(ds, Value(ds, u) - t)) == 0 <==> Value(ds, u) == t
  {
    hide Number, ChangeFor, Value, Multiple, Chain;
    forall i | 0 <= i < |ds| ensures Multiple(ds[0], ds[i]) { AllAreMultiples(ds, i); }
    LowestIsLeast(ds);
    ValueIsMultiple(ds, u, ds[0]);
    MultipleDiff(ds[0], Value(ds, u), t);
    SmallChangeIsNone(ds, Value(ds, u) - t);
    if Value(ds, u) - t < ds[0] {
      SmallMultiple(ds[0], Value(ds, u) - t);
    }
  }

  ghost predicate ExactWithin(ds: seq<nat>, t: nat, held: Counts, u: Counts, maxSpends: int)
    requires |ds| == |held|
  {
    Within(u, held) && Value(ds, u) == t && Number(u) <= maxSpends
  }

  lemma MinimizeTakesFew(ds: seq<nat>, maxSpends: int, saved: Choice, limit: nat, t: int, held: Counts)
    requires |ds| == |held| && Positive(ds) && limit <= |ds|
    ensures var c := Minimize(ds, maxSpends, saved, limit, t, held); c == saved || Number(c.used) <= maxSpends
    ensures saved.change == 0 ==> Minimize(ds, maxSpends, saved, limit, t, held) == saved
  {
  }

  lemma OneCoinHasChange(ds: seq<nat>, maxSpends: int, t: int, held: Counts, k: nat)
    requires Chain(ds) && |ds| == |held| && Positive(ds) && t > 0 && k < |ds| && ds[k] > t && held[k] > 0 && Multiple(ds[0], t)
    requires forall u :: !ExactWithin(ds, t, held, u, maxSpends)
    ensures var one := Choice(Number(ChangeFor(ds, ds[k] - t)), Single(|ds|, k));
            one.change != 0 && Minimize(ds, maxSpends, one, HeldBelow(held, k), t, held).change != 0
  {
    hide Minimize, Value, Number, ChangeFor, Chain, Single, HeldBelow, Sound, Multiple, ExactWithin, Within, Positive;
    var one := Choice(Number(ChangeFor(ds, ds[k] - t)), Single(|ds|, k));
    OneCoinCaseIsSound(ds, maxSpends, t, held, k);
    SingleValue(ds, k);
    SoundWithoutChange(ds, t, held, maxSpends, one);
    SoundWithoutChange(ds, t, held, maxSpends, Minimize(ds, maxSpends, one, HeldBelow(held, k), t, held));
    MinimizeTakesFew(ds, maxSpends, one, HeldBelow(held, k), t, held);
  }

  lemma CoverHasChange(ds: seq<nat>, maxSpends: int, t: int, held: Counts)
    requires Chain(ds) && |ds| == |held| && Positive(ds) && ds != [] && t > 0 && Value(ds, held) >= t && Multiple(ds[0], t)
    requires forall u :: !ExactWithin(ds, t, held, u, maxSpends)
    ensures var used := Cover(ds, held, t); var plain := Choice(Number(ChangeFor(ds, Value(ds, used) - t)), used);
            && (plain.change == 0 <==> Value(ds, used) == t)
            && (Minimize(ds, maxSpends, plain, HeldBelow(held, |ds|), t, held).change == 0 <==> Value(ds, used) == t)
  {
    hide Minimize, Value, Number, ChangeFor, Chain, Cover, HeldBelow, Sound, Multiple, ExactWithin, Positive;
    var used := Cover(ds, held, t);
    var plain := Choice(Number(ChangeFor(ds, Value(ds, used) - t)), used);
    CoverCaseIsSound(ds, maxSpends, t, held);
    SoundWithoutChange(ds, t, held, maxSpends, plain);
    SoundWithoutChange(ds, t, held, maxSpends, Minimize(ds, maxSpends, plain, HeldBelow(held, |ds|), t, held));
    MinimizeTakesFew(ds, maxSpends, plain, HeldBelow(held, |ds|), t, held);
  }

  lemma CalculateIsOneOf(ds: seq<nat>, maxSpends: int, minimize: bool, t: int, held: Counts)
    requires |ds| == |held| && Positive(ds)
    ensures var c := Calculate(ds, maxSpends, minimize, t, held);
            match FirstAbove(ds, held, Zeros(|ds|), t, 0)
            case Some(k) =>
              var one := Choice(Number(ChangeFor(ds, ds[k] - t)), Single(|ds|, k));
              c == one || c == Minimize(ds, maxSpends, one, HeldBelow(held, k), t, held)
            case None =>
              var used := Cover(ds, held, t);
              var plain := Choice(Number(ChangeFor(ds, Value(ds, used) - t)), used);
              c == plain || c == Minimize(ds, maxSpends, plain, HeldBelow(held, |ds|), t, held)
  {
    hide Minimize, Value, Number, ChangeFor, Single, Cover, HeldBelow, FirstAbove;
  }

  /**
   calculateChange is asked only if no exact choice is small enough. It then returns no change, so
   that nothing is selected, exactly if no single coin held is above the target and taking coins
   from the highest down meets it exactly.
   */
  lemma NoChangeMeansTooMany(ds: seq<nat>, maxSpends: int, minimize: bool, t: int, held: Counts)
    requires Chain(ds) && |ds| == |held| && Positive(ds) && t > 0 && Value(ds, held) >= t && Multiple(ds[0], t)
    requires forall u :: !ExactWithin(ds, t, held, u, maxSpends)
    ensures Calculate(ds, maxSpends, minimize, t, held).change == 0 <==>
            FirstAbove(ds, held, Zeros(|ds|), t, 0).None? && Value(ds, Cover(ds, held, t)) == t
  {
    hide Minimize, Value, Number, ChangeFor, Chain, Single, Cover, HeldBelow, FirstAbove, Multiple, ExactWithin, Calculate, Positive;
    WorthSomething(ds, held);
    CalculateIsOneOf(ds, maxSpends, minimize, t, held);
    var first := FirstAbove(ds, held, Zeros(|ds|), t, 0);
    if first.Some? {
      OneCoinHasChange(ds, maxSpends, t, held, first.value);
    } else {
      CoverHasChange(ds, maxSpends, t, held);
    }
  }

  lemma SingleValue(ds: seq<nat>, k: nat)
    requires k < |ds|
    ensures Value(ds, Single(|ds|, k)) == ds[k]
  {
    ZerosValue(ds);
    OneMore(ds, Zeros(|ds|), k);
    assert Single(|ds|, k) == Zeros(|ds|)[k := Zeros(|ds|)[k] + 1];
  }

  lemma SoundWithoutChange(ds: seq<nat>, t: nat, held: Counts, maxSpends: int, c: Choice)
    requires Chain(ds) && |ds| == |held| && Positive(ds) && ds != [] && Multiple(ds[0], t) && Sound(ds, t, held, c)
    ensures Within(c.used, held) && (c.change == 0 <==> Value(ds, c.used) == t)
    ensures c.change == 0 && Number(c.used) <= maxSpends ==> ExactWithin(ds, t, held, c.used, maxSpends)
  {
    NoChangeIsExact(ds, t, c.used);
  }
}
