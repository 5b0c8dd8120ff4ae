/** What calculateChange chooses for some stocks of the program's own denominations. */
module ChangeExamples {
  import opened Arithmetic
  import opened Change
  import opened Denominations
  import opened LeastChange
  import opened Primitives

  lemma PrefixStep(ds: seq<nat>, u: Counts, k: nat)
    requires |ds| == |u| && k < |ds|
    ensures Value(ds[..k + 1], u[..k + 1]) == Value(ds[..k], u[..k]) + Worth(u[k], ds[k])
  {
    hide Value, Worth;
    TopOf(ds[..k + 1], u[..k + 1]);
    assert ds[..k + 1][..k] == ds[..k] && u[..k + 1][..k] == u[..k];
  }

  lemma Prices(n: nat)
    ensures Worth(n, LIST[0]) == n * COIN
    ensures Worth(n, LIST[1]) == 5 * n * COIN
    ensures Worth(n, LIST[2]) == 10 * n * COIN
    ensures Worth(n, LIST[3]) == 50 * n * COIN
    ensures Worth(n, LIST[4]) == 100 * n * COIN
    ensures Worth(n, LIST[5]) == 500 * n * COIN
  {
  }

  /** What the coins of the lowest denominations are worth. */
  lemma ListValue(u: Counts)
    requires |u| == |LIST| && u[6] == u[7] == 0
    ensures Value(LIST[..1], u[..1]) == u[0] * COIN
    ensures Value(LIST[..2], u[..2]) == Value(LIST[..1], u[..1]) + 5 * u[1] * COIN
    ensures Value(LIST[..3], u[..3]) == Value(LIST[..2], u[..2]) + 10 * u[2] * COIN
    ensures Value(LIST[..4], u[..4]) == Value(LIST[..3], u[..3]) + 50 * u[3] * COIN
    ensures Value(LIST[..5], u[..5]) == Value(LIST[..4], u[..4]) + 100 * u[4] * COIN
    ensures Value(LIST[..6], u[..6]) == Value(LIST[..5], u[..5]) + 500 * u[5] * COIN
    ensures Value(LIST[..7], u[..7]) == Value(LIST[..6], u[..6])
    ensures Value(LIST[..8], u[..8]) == Value(LIST, u) == Value(LIST[..6], u[..6])
  {
    hide Value, Worth;
    Prices(u[0]);
    Prices(u[1]);
    Prices(u[2]);
    Prices(u[3]);
    Prices(u[4]);
    Prices(u[5]);
    forall k: nat | k < |LIST| ensures Value(LIST[..k + 1], u[..k + 1]) == Value(LIST[..k], u[..k]) + Worth(u[k], LIST[k]) {
      PrefixStep(LIST, u, k);
    }
    NothingIsWorthless(LIST[..0], u[..0]);
    WorthOfNone(LIST[6]);
    WorthOfNone(LIST[7]);
    assert LIST[..8] == LIST && u[..8] == u;
  }

  /** A choice that uses all coins held wherever what remains would still allow another is the greedy one. */
  lemma {:induction false} GreedyIs(ds: seq<nat>, held: Counts, t: nat, u: Counts)
    requires |ds| == |held| && Positive(ds) && Within(u, held) && Value(ds, u) <= t
    requires forall i | 0 <= i < |ds| :: u[i] == held[i] || t - Value(ds, u) + Value(ds[..i + 1], u[..i + 1]) - Worth(u[i], ds[i]) < ds[i]
    ensures Greedy(ds, held, t) == u
    decreases |ds|
  {
    hide Value, Worth, Greedy, Take;
    if ds == [] {
      GreedyOfNothing(held, t);
    } else {
      var n := |ds| - 1;
      TopOf(ds, u);
      GreedyStep(ds, held, t);
      assert ds[..n + 1] == ds && u[..n + 1] == u;
      TakeIs(held[n], t, ds[n], u[n], Value(ds[..n], u[..n]));
      forall i | 0 <= i < n
        ensures u[..n][i] == held[..n][i] ||
                t - Value(ds, u) + Value(ds[..n][..i + 1], u[..n][..i + 1]) - Worth(u[..n][i], ds[..n][i]) < ds[..n][i]
      {
        assert ds[..n][..i + 1] == ds[..i + 1] && u[..n][..i + 1] == u[..i + 1];
      }
      GreedyIs(ds[..n], held[..n], t - Worth(u[n], ds[n]), u[..n]);
      assert u[..n] + [u[n]] == u;
    }
  }

  lemma GreedyOfNothing(held: Counts, t: int)
    requires held == []
    ensures Greedy([], held, t) == []
  {
  }

  lemma TakeIs(held: nat, t: nat, d: nat, g: nat, low: nat)
    requires d > 0 && g <= held && Worth(g, d) + low <= t && (g == held || t - Worth(g, d) < d)
    ensures Take(held, t, d) == g
  {
    TakeIsMost(held, t, d, g);
  }

  lemma ListNumber(u: Counts)
    requires |u| == |LIST|
    ensures Number(u) == u[0] + u[1] + u[2] + u[3] + u[4] + u[5] + u[6] + u[7]
  {
    forall k: nat | k < |u| ensures Number(u[..k + 1]) == Number(u[..k]) + u[k] {
      assert u[..k + 1][..k] == u[..k];
    }
    assert Number(u[..0]) == 0 && u[..8] == u;
  }

  lemma ListIsPositive()
    ensures Chain(LIST) && Positive(LIST)
  {
    ListIsChain();
    ChainPositive(LIST);
  }

  /** The greedy choice for an amount below 1000. */
  lemma ListGreedy(held: Counts, t: nat, u: Counts)
    requires |held| == |u| == |LIST| && Positive(LIST) && u[6] == u[7] == 0 && Within(u, held)
    requires Value(LIST, u) <= t < 1000 * COIN
    requires var rest := t - Value(LIST, u);
             && (u[0] == held[0] || rest < COIN)
             && (u[1] == held[1] || rest + u[0] * COIN < 5 * COIN)
             && (u[2] == held[2] || rest + (u[0] + 5 * u[1]) * COIN < 10 * COIN)
             && (u[3] == held[3] || rest + (u[0] + 5 * u[1] + 10 * u[2]) * COIN < 50 * COIN)
             && (u[4] == held[4] || rest + (u[0] + 5 * u[1] + 10 * u[2] + 50 * u[3]) * COIN < 100 * COIN)
             && (u[5] == held[5] || rest + (u[0] + 5 * u[1] + 10 * u[2] + 50 * u[3] + 100 * u[4]) * COIN < 500 * COIN)
    ensures Greedy(LIST, held, t) == u
  {
    hide Value, Greedy, Worth;
    ListValue(u);
    Prices(u[0]);
    Prices(u[1]);
    Prices(u[2]);
    Prices(u[3]);
    Prices(u[4]);
    Prices(u[5]);
    GreedyIs(LIST, held, t, u);
  }

  lemma ListChange(t: nat, u: Counts)
    requires |u| == |LIST| && t < 1000 * COIN && Value(LIST, u) == t
    requires u[0] < 5 && u[1] < 2 && u[2] < 5 && u[3] < 2 && u[4] < 5 && u[5] < 2 && u[6] == u[7] == 0
    ensures ChangeFor(LIST, t) == u
  {
    hide Value, Greedy, ChangeFor, Chain;
    ListIsPositive();
    var plenty := seq(|LIST|, _ => t);
    EachIsNoMore(LIST, u);
    ChangeIsGreedy(LIST, plenty, t);
    ListGreedy(plenty, t, u);
  }

  lemma SpareIs(held: Counts, used: Counts, i: nat)
    requires Within(used, held) && i < |held| && used[i] < held[i] && forall l | 0 <= l < i :: used[l] == held[l]
    ensures Spare(held, used) == i
  {
    var s := Spare(held, used);
    assert !(i < s);
  }

  lemma ChangeOfFour()
    ensures ChangeFor(LIST, 4 * COIN) == [4, 0, 0, 0, 0, 0, 0, 0] && Number(ChangeFor(LIST, 4 * COIN)) == 4
  {
    var u: Counts := [4, 0, 0, 0, 0, 0, 0, 0];
    ListValue(u);
    ListNumber(u);
    ListChange(4 * COIN, u);
  }

  lemma ChangeOfNinetyFour()
    ensures Number(ChangeFor(LIST, 94 * COIN)) == 9
  {
    var u: Counts := [4, 0, 4, 1, 0, 0, 0, 0];
    ListValue(u);
    ListNumber(u);
    ListChange(94 * COIN, u);
  }

  const TWO_FIVES_ONE_HUNDRED: Counts := [0, 2, 0, 0, 1, 0, 0, 0]
  const TWO_FIVES: Counts := [0, 2, 0, 0, 0, 0, 0, 0]

  lemma TwoFivesAreLeast()
    ensures Value(LIST, TWO_FIVES) == 10 * COIN && Number(TWO_FIVES) == 2
    ensures Least(LIST, 6 * COIN, TWO_FIVES_ONE_HUNDRED, TWO_FIVES)
    ensures forall w | Within(w, TWO_FIVES_ONE_HUNDRED) && Value(LIST, w) == 10 * COIN :: w == TWO_FIVES
  {
    hide Value;
    ListValue(TWO_FIVES);
    ListNumber(TWO_FIVES);
    forall w | Within(w, TWO_FIVES_ONE_HUNDRED) && Value(LIST, w) >= 6 * COIN
      ensures Value(LIST, w) >= 10 * COIN && (Value(LIST, w) == 10 * COIN ==> w == TWO_FIVES)
    {
      ListValue(w);
    }
  }

  lemma OneOverIsTwoFives()
    ensures Positive(LIST) && OneOver(LIST, TWO_FIVES_ONE_HUNDRED, 6 * COIN) == TWO_FIVES
  {
    hide Value, Greedy, Chain, Spare;
    ListIsPositive();
    var low: Counts := [0, 1, 0, 0, 0, 0, 0, 0];
    ListValue(low);
    ListGreedy(TWO_FIVES_ONE_HUNDRED, 6 * COIN - 1, low);
    SpareIs(TWO_FIVES_ONE_HUNDRED, low, 1);
    assert low[1 := 2] == TWO_FIVES;
  }

  lemma NothingSkipped(ds: seq<nat>, stock: Counts, e: int)
    requires |ds| == |stock| && Positive(ds) && forall j | 0 < j < |ds| :: ChangeFor(ds, e)[j] == 0
    ensures !Skips(ds, stock, e)
  {
  }

  lemma TwoFivesSkipNone()
    ensures Positive(LIST) && !Skips(LIST, TWO_FIVES_ONE_HUNDRED, Excess(LIST, TWO_FIVES_ONE_HUNDRED, 6 * COIN))
  {
    hide Value, ChangeFor, Number, OneOver, Skips;
    OneOverIsTwoFives();
    ListValue(TWO_FIVES);
    ChangeOfFour();
    NothingSkipped(LIST, TWO_FIVES_ONE_HUNDRED, 4 * COIN);
  }

  /**
   Holding two fives and a hundred, a target of 6 is paid with the hundred and 9 coins of change,
   or with fMinimizeChange and the two fives and 4.
   */
  lemma TwoFivesOrOneHundred(maxSpends: int)
    requires maxSpends >= 2
    ensures Positive(LIST)
    ensures Calculate(LIST, maxSpends, false, 6 * COIN, TWO_FIVES_ONE_HUNDRED) == Choice(9, [0, 0, 0, 0, 1, 0, 0, 0])
    ensures Calculate(LIST, maxSpends, true, 6 * COIN, TWO_FIVES_ONE_HUNDRED) == Choice(4, TWO_FIVES)
  {
    hide Value, Greedy, ChangeFor, Number, Calculate, Least, Skips, Excess, Chain;
    ListIsPositive();
    var t, held := 6 * COIN, TWO_FIVES_ONE_HUNDRED;
    TwoFivesAreLeast();
    TwoFivesSkipNone();
    ChangeOfFour();
    ChangeOfNinetyFour();
    assert Single(8, 4) == [0, 0, 0, 0, 1, 0, 0, 0];
    OneCoinPays(LIST, maxSpends, t, held, 4);
    OneCoinIsPlain(LIST, t, held, 4);
    ChangeIsMinimized(LIST, maxSpends, t, held, TWO_FIVES);
    ListValue(held);
    CalculateIsSound(LIST, maxSpends, true, t, held);
  }

  lemma OneCoinIsPlain(ds: seq<nat>, t: int, held: Counts, k: nat)
    requires |ds| == |held| && Positive(ds) && IsLowestAbove(ds, t, held, k)
    ensures PlainChoice(ds, t, held) == Choice(Number(ChangeFor(ds, ds[k] - t)), Single(|ds|, k))
  {
    hide Value, Number, ChangeFor;
    FirstAboveIs(ds, held, Zeros(|ds|), t, 0, k);
    SingleValue(ds, k);
  }

  // Two fives, two fifties and a five hundred.
  const FIVES_AND_FIFTIES: Counts := [0, 2, 0, 2, 0, 1, 0, 0]
  const TWO_FIFTIES: Counts := [0, 0, 0, 2, 0, 0, 0, 0]
  const ALL_FOUR: Counts := [0, 2, 0, 2, 0, 0, 0, 0]

  lemma TwoFiftiesAreLeast()
    ensures Value(LIST, TWO_FIFTIES) == 100 * COIN && Number(TWO_FIFTIES) == 2
    ensures Least(LIST, 99 * COIN, FIVES_AND_FIFTIES, TWO_FIFTIES)
    ensures forall w | Within(w, FIVES_AND_FIFTIES) :: Value(LIST, w) != 99 * COIN
  {
    hide Value;
    ListValue(TWO_FIFTIES);
    ListNumber(TWO_FIFTIES);
    forall w | Within(w, FIVES_AND_FIFTIES)
      ensures Value(LIST, w) != 99 * COIN && (Value(LIST, w) >= 99 * COIN ==> Value(LIST, w) >= 100 * COIN)
    {
      ListValue(w);
    }
  }

  lemma OneOverIsAllFour()
    ensures Positive(LIST) && OneOver(LIST, FIVES_AND_FIFTIES, 99 * COIN) == ALL_FOUR
  {
    hide Value, Greedy, Chain, Spare;
    ListIsPositive();
    var low: Counts := [0, 2, 0, 1, 0, 0, 0, 0];
    ListValue(low);
    ListGreedy(FIVES_AND_FIFTIES, 99 * COIN - 1, low);
    SpareIs(FIVES_AND_FIFTIES, low, 3);
    assert low[3 := 2] == ALL_FOUR;
  }

  lemma AllFourAreGreedy()
    ensures Positive(LIST) && Value(LIST, ALL_FOUR) == 110 * COIN && Number(ALL_FOUR) == 4
    ensures Greedy(LIST, FIVES_AND_FIFTIES, 110 * COIN) == ALL_FOUR
  {
    hide Value, Greedy, Chain;
    ListIsPositive();
    ListValue(ALL_FOUR);
    ListNumber(ALL_FOUR);
    ListGreedy(FIVES_AND_FIFTIES, 110 * COIN, ALL_FOUR);
  }

  lemma ChangeOfEleven()
    ensures ChangeFor(LIST, 11 * COIN) == [1, 0, 1, 0, 0, 0, 0, 0] && Number(ChangeFor(LIST, 11 * COIN)) == 2
  {
    var u: Counts := [1, 0, 1, 0, 0, 0, 0, 0];
    ListValue(u);
    ListNumber(u);
    ListChange(11 * COIN, u);
  }

  lemma ChangeOfFourHundredAndOne()
    ensures Number(ChangeFor(LIST, 401 * COIN)) == 5
  {
    var u: Counts := [1, 0, 0, 0, 4, 0, 0, 0];
    ListValue(u);
    ListNumber(u);
    ListChange(401 * COIN, u);
  }

  lemma ChangeOfOne()
    ensures Number(ChangeFor(LIST, COIN)) == 1
  {
    var u: Counts := [1, 0, 0, 0, 0, 0, 0, 0];
    ListValue(u);
    ListNumber(u);
    ListChange(COIN, u);
  }

  /** The change of 11 skips the fives: it has a ten, of which none is held, and no five, of which two are. */
  lemma ElevenSkipsFives()
    ensures Positive(LIST) && Skips(LIST, FIVES_AND_FIFTIES, Excess(LIST, FIVES_AND_FIFTIES, 99 * COIN))
  {
    hide Value, ChangeFor, Number, OneOver;
    OneOverIsAllFour();
    ListValue(ALL_FOUR);
    ChangeOfEleven();
    assert ChangeFor(LIST, 11 * COIN)[2] > FIVES_AND_FIFTIES[2] && FIVES_AND_FIFTIES[1] > ChangeFor(LIST, 11 * COIN)[1];
  }

  lemma LeanIsAllFour()
    ensures Positive(LIST) && Lean(LIST, 4, FIVES_AND_FIFTIES, 99 * COIN) == ALL_FOUR
  {
    hide Value, ChangeFor, Number, OneOver, Greedy, ClimbUpTo, TopUp, Chain, Skips;
    ListIsPositive();
    var held, t := FIVES_AND_FIFTIES, 99 * COIN;
    TwoFiftiesAreLeast();
    OneOverIsAllFour();
    AllFourAreGreedy();
    ChangeOfEleven();
    ListValue(held);
    FirstPassIsGreedy(LIST, 4, held, t);
    SecondPassIsOneOver(LIST, held, t);
    assert Common(ChangeFor(LIST, 11 * COIN), ALL_FOUR) == [0, 0, 0, 0, 0, 0, 0, 0];
    assert Minus(ALL_FOUR, [0, 0, 0, 0, 0, 0, 0, 0]) == ALL_FOUR;
  }

  /**
   The least is not always paid. Of two fives, two fifties and a five hundred, the two fifties pay
   99 with one coin of change, but fMinimizeChange pays 110, and gets back two.
   */
  lemma TwoFiftiesAreMissed(maxSpends: int)
    requires maxSpends >= 4
    ensures Positive(LIST) && Least(LIST, 99 * COIN, FIVES_AND_FIFTIES, TWO_FIFTIES)
    ensures Number(ChangeFor(LIST, Value(LIST, TWO_FIFTIES) - 99 * COIN)) == 1
    ensures Skips(LIST, FIVES_AND_FIFTIES, Excess(LIST, FIVES_AND_FIFTIES, 99 * COIN))
    ensures Calculate(LIST, maxSpends, true, 99 * COIN, FIVES_AND_FIFTIES) == Choice(2, ALL_FOUR)
  {
    hide Value, Greedy, ChangeFor, Number, Least, Skips, Excess, Chain, Lean;
    TwoFiftiesAreLeast();
    ElevenSkipsFives();
    ChangeOfOne();
    ChangeOfEleven();
    ChangeOfFourHundredAndOne();
    LeanIsAllFour();
    AllFourAreGreedy();
    FirstAboveIs(LIST, FIVES_AND_FIFTIES, Zeros(8), 99 * COIN, 0, 5);
    assert HeldBelow(FIVES_AND_FIFTIES, 5) == 4;
  }
}
