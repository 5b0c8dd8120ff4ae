/** The choice of blocks for the stake modifier, told round by round in seconds and hashes. */
module StakeLaws {
  import opened Arithmetic
  import opened BitPacking
  import opened Primitives
  import opened StakeModifier
  import opened Wrappers

  // ---------- the sections ----------

  /** Section n is the quotient of 60 times 63 and 189 - 2n. */
  lemma SectionIs(n: nat)
    requires n < 64
    ensures (189 - 2 * n) * Section(n) <= 3780 < (189 - 2 * n) * (Section(n) + 1)
  {
    var d := 189 - 2 * n;
    assert Section(n) == 3780 / d;
    DivAbove(3780, d, Section(n));
    if Section(n) > 0 {
      DivAbove(3780, d, Section(n) - 1);
    }
    assert d * Section(n) == Section(n) * d && d * (Section(n) + 1) == Section(n) * d + d;
  }

  /** The sections grow from 20 seconds to 60. */
  lemma SectionsGrow(n: nat, m: nat)
    requires n <= m < 64
    ensures 20 == Section(0) <= Section(n) <= Section(m) <= Section(63) == 60
  {
    SectionGrows(0, n);
    SectionGrows(n, m);
    SectionGrows(m, 63);
  }

  lemma SectionGrows(n: nat, m: nat)
    requires n <= m < 64
    ensures Section(n) <= Section(m)
  {
    SectionIs(n);
    SectionIs(m);
    if Section(m) < Section(n) {
      MulGrows(189 - 2 * m, 189 - 2 * n, Section(m) + 1, Section(n));
    }
  }

  // ---------- the stops ----------

  /** One time before the first round and one at the end of each; the rounds end with the minute before `time`. */
  ghost predicate AreStops(stops: seq<int>, time: nat) {
    && |stops| == 65 && stops[64] == time - time % 60
    && forall k | 0 <= k < 64 :: IsGap(k, stops[k + 1] - stops[k])
  }

  predicate IsGap(k: nat, gap: int) {
    (189 - 2 * k) * gap <= 3780 < (189 - 2 * k) * (gap + 1)
  }

  function Stops(start: int): (stops: seq<int>)
    ensures |stops| == 65 && forall k | 0 <= k <= 64 :: stops[k] == start + SectionSum(k)
  {
    seq(65, k requires 0 <= k < 65 => start + SectionSum(k))
  }

  lemma StopsAre(time: nat)
    ensures AreStops(Stops(IntervalStart(time)), time)
  {
    hide SectionSum, Section;
    var stops := Stops(IntervalStart(time));
    forall k | 0 <= k < 64 ensures IsGap(k, stops[k + 1] - stops[k]) {
      SectionStep(k);
      SectionIs(k);
    }
  }

  // ---------- the candidates ----------

  /** The blocks from position k on, the first before which is too old, in order of time and then hash. */
  ghost predicate AreCandidates(cands: seq<Candidate>, chain: seq<Block>, k: nat, start: int) {
    && k <= |chain| && |cands| == |chain| - k
    && (forall i | k <= i < |chain| :: chain[i].time >= start) && (k > 0 ==> chain[k - 1].time < start)
    && multiset(cands) == multiset(seq(|chain| - k, i requires 0 <= i < |chain| - k => Candidate(chain[k + i].time, chain[k + i].hash)))
    && forall i, j | 0 <= i < j < |cands| ::
         cands[i].time < cands[j].time || (cands[i].time == cands[j].time && cands[i].hash <= cands[j].hash)
  }

  lemma {:induction false} GatherStops(chain: seq<Block>, start: int)
    ensures var k := |chain| - |Gather(chain, start)|;
            0 <= k && (forall i | k <= i < |chain| :: chain[i].time >= start) && (k > 0 ==> chain[k - 1].time < start)
    decreases |chain|
  {
    if chain != [] && chain[|chain| - 1].time >= start {
      GatherStops(chain[..|chain| - 1], start);
    }
  }

  lemma CandidatesAre(chain: seq<Block>, start: int)
    ensures |Gather(chain, start)| <= |chain|
    ensures AreCandidates(Sort(Gather(chain, start)), chain, |chain| - |Gather(chain, start)|, start)
  {
    hide Gather, Sort;
    var s, k := Gather(chain, start), |chain| - |Gather(chain, start)|;
    GatheredFrom(chain, start);
    GatherStops(chain, start);
    SortSorts(s);
    assert |multiset(Sort(s))| == |multiset(s)|;
    assert s == seq(|chain| - k, i requires 0 <= i < |chain| - k => Candidate(chain[k + i].time, chain[k + i].hash));
    forall i, j | 0 <= i < j < |Sort(s)| ensures Before(Sort(s)[i], Sort(s)[j]) {}
  }

  // ---------- the picks ----------

  predicate Unpicked(picks: seq<nat>, k: nat, j: nat)
    requires k <= |picks|
  {
    j !in picks[..k]
  }

  /** Early enough for the round, or the first that is left. */
  ghost predicate MayBePicked(cands: seq<Candidate>, picks: seq<nat>, k: nat, stop: int, j: nat)
    requires k <= |picks|
  {
    j < |cands| && Unpicked(picks, k, j) && (cands[j].time <= stop || forall i: nat | i < j :: !Unpicked(picks, k, i))
  }

  /**
   The hash of the block's own hash, or of 0 for a proof-of-stake block below the upgrade, with the
   modifier before; that of a proof-of-stake block divided by 2 to the 32.
   */
  function Weight(rules: Rules, index: map<Hash, Block>, cands: seq<Candidate>, prev: nat, j: nat): Hash
    requires j < |cands| && cands[j].hash in index && cands[0].hash in index
  {
    var b := index[cands[j].hash];
    if !b.proofOfStake then rules.hash(b.hash, prev)
    else if index[cands[0].hash].height >= rules.upgrade then rules.hash(b.hash, prev) / 4294967296
    else rules.hash(0, prev) / 4294967296
  }

  /** The lightest that may be picked, and the first of these. */
  ghost predicate IsLightest(rules: Rules, index: map<Hash, Block>, cands: seq<Candidate>, prev: nat, picks: seq<nat>, stops: seq<int>, k: nat)
    requires k < |picks| && k + 1 < |stops| && Indexed(index, cands)
  {
    var r, stop := picks[k], stops[k + 1];
    && MayBePicked(cands, picks, k, stop, r)
    && forall j: nat | j < |cands| && MayBePicked(cands, picks, k, stop, j) ::
         if j < r then Weight(rules, index, cands, prev, r) < Weight(rules, index, cands, prev, j)
         else Weight(rules, index, cands, prev, r) <= Weight(rules, index, cands, prev, j)
  }

  lemma PickedBefore(cands: seq<Candidate>, picks: seq<nat>, k: nat, j: nat)
    requires DistinctHashes(cands) && InRange(cands, picks) && k <= |picks| && j < |cands|
    ensures InRange(cands, picks[..k])
    ensures cands[j].hash in Hashes(cands, picks[..k]) <==> !Unpicked(picks, k, j)
  {
    var p := picks[..k];
    assert forall i | 0 <= i < |p| :: p[i] == picks[i];
    if cands[j].hash in Hashes(cands, p) {
      var i :| 0 <= i < |p| && cands[p[i]].hash == cands[j].hash;
      assert p[i] == j;
    }
    if j in p {
      var i :| 0 <= i < |p| && p[i] == j;
    }
  }

  lemma MayBeIs(cands: seq<Candidate>, picks: seq<nat>, k: nat, stop: int, j: nat)
    requires DistinctHashes(cands) && InRange(cands, picks) && k <= |picks| && InRange(cands, picks[..k])
    ensures MayBePicked(cands, picks, k, stop, j) <==> Eligible(cands, Hashes(cands, picks[..k]), stop, j)
  {
    hide Unpicked, Hashes;
    forall i: nat | i < |cands| ensures cands[i].hash in Hashes(cands, picks[..k]) <==> !Unpicked(picks, k, i) {
      PickedBefore(cands, picks, k, i);
    }
  }

  lemma RoundIs(rules: Rules, index: map<Hash, Block>, cands: seq<Candidate>, start: int, prev: nat, picks: seq<nat>, k: nat)
    requires Indexed(index, cands) && DistinctHashes(cands) && InRange(cands, picks) && k < |picks| <= ROUNDS
    requires Round(rules, index, cands, start, prev, picks, k)
    ensures IsLightest(rules, index, cands, prev, picks, Stops(start), k)
  {
    hide Hashes, SectionSum, MayBePicked, Eligible;
    var stop := start + SectionSum(k + 1);
    forall j: nat ensures MayBePicked(cands, picks, k, stop, j) <==> Eligible(cands, Hashes(cands, picks[..k]), stop, j) {
      MayBeIs(cands, picks, k, stop, j);
    }
    forall j: nat | j < |cands| ensures Weight(rules, index, cands, prev, j) == HashAt(rules, index, cands, prev, j) {
    }
  }

  // ---------- the next modifier ----------

  /**
   A new modifier is generated as follows: the candidates are the blocks since the first stop, up to
   64 are picked, in each round the lightest that may be, and bit k is the entropy of the k-th.
   */
  lemma NextIsByTheStops(rules: Rules, index: map<Hash, Block>, chain: seq<Block>, first: nat, out: Outcome)
    returns (stops: seq<int>, k: nat, cands: seq<Candidate>, picks: seq<nat>)
    requires OnChain(index, chain) && |chain| > 1 && IsNext(rules, index, chain, first, out)
    requires LastGenerated(chain).generated && LastGenerated(chain).time / 60 < chain[|chain| - 1].time / 60
    ensures AreStops(stops, chain[|chain| - 1].time) && AreCandidates(cands, chain, k, stops[0])
    ensures |picks| == (if |cands| < 64 then |cands| else 64)
    ensures Indexed(index, cands) && InRange(cands, picks)
    ensures forall r | 0 <= r < |picks| :: IsLightest(rules, index, cands, LastGenerated(chain).modifier, picks, stops, r)
    ensures out.Generated? && forall r: nat :: BitAt(out.modifier, r) <==> r < |picks| && index[cands[picks[r]].hash].entropy
  {
    hide OnChain, Sort, Gather, SectionSum, LastGenerated, ByteOf, BitAt, Round, IsLightest, Entropies, AreCandidates, AreStops, IntervalStart;
    var time, prev := chain[|chain| - 1].time, LastGenerated(chain).modifier;
    var start := IntervalStart(time);
    stops := Stops(start);
    StopsAre(time);
    assert SectionSum(0) == 0 by { NothingYet(index, []); }
    k := |chain| - |Gather(chain, start)| by { GatheredFrom(chain, start); }
    CandidatesAre(chain, start);
    GatheredAreFit(index, chain, start);
    cands := Sort(Gather(chain, start));
    SortKeeps(index, Gather(chain, start));
    picks :| Picks(rules, index, cands, start, prev, picks)
             && |picks| == (if |cands| < ROUNDS then |cands| else ROUNDS) && out == Generated(ByteOf(Entropies(index, cands, picks)));
    forall r | 0 <= r < |picks| ensures IsLightest(rules, index, cands, prev, picks, stops, r) {
      assert Round(rules, index, cands, start, prev, picks, r);
      RoundIs(rules, index, cands, start, prev, picks, r);
    }
    forall r: nat ensures BitAt(out.modifier, r) <==> r < |picks| && index[cands[picks[r]].hash].entropy {
      ModifierBits(index, cands, picks, r);
    }
  }

  /** The modifier last generated is that of the last block that generated one; with none, of genesis. */
  lemma {:induction false} LastGeneratedIs(chain: seq<Block>) returns (p: nat)
    requires chain != []
    ensures p < |chain| && LastGenerated(chain) == chain[p] && (chain[p].generated || p == 0)
    ensures forall i | p < i < |chain| :: !chain[i].generated
    decreases |chain|
  {
    p := |chain| - 1;
    if p > 0 && !chain[p].generated {
      p := LastGeneratedIs(chain[..p]);
    }
  }

  /** Otherwise nothing is computed: genesis gets 0, the block after it a fixed one, and within a minute the last is kept. */
  lemma NextWithoutPicks(rules: Rules, index: map<Hash, Block>, chain: seq<Block>, first: nat, out: Outcome)
    requires IsNext(rules, index, chain, first, out)
    ensures chain == [] ==> out == Generated(0)
    ensures |chain| == 1 ==> out == Generated(first)
    ensures |chain| > 1 && !LastGenerated(chain).generated ==> out == Failed
    ensures |chain| > 1 && LastGenerated(chain).generated && LastGenerated(chain).time / 60 >= chain[|chain| - 1].time / 60 ==>
              out == Kept(LastGenerated(chain).modifier)
  {
    hide IsPicked, LastGenerated, Gather, Sort, IntervalStart;
  }
}
