/** The stake modifier: one bit from each of up to 64 blocks, chosen round by round without repetition. */
module StakeModifier {
  import opened Arithmetic
  import opened BitPacking
  import opened Primitives
  import opened Wrappers

  datatype Block = Block(hash: Hash, time: nat, height: nat, proofOfStake: bool, entropy: bool, modifier: nat, generated: bool)

  /** Time stamp and hash, in the order candidates are sorted. */
  datatype Candidate = Candidate(time: nat, hash: Hash)

  /** The hash of a proof and a modifier is not modelled; blocks from the upgrade height on select by the new rule. */
  datatype Rules = Rules(hash: (Hash, nat) -> Hash, upgrade: int)

  const INTERVAL: nat := 60
  const RATIO: nat := 3
  const ROUNDS: nat := 64

  // ---------- intervals ----------

  function Section(n: nat): nat
    requires n < ROUNDS
  {
    INTERVAL * 63 / (63 + (63 - n) * (RATIO - 1))
  }

  function SectionSum(n: nat): nat
    requires n <= ROUNDS
  {
    if n == 0 then 0 else SectionSum(n - 1) + Section(n - 1)
  }

  // ---------- one round ----------

  /** Proof-of-stake blocks are favoured: their hash is shifted right by 32. */
  function SelectionHash(rules: Rules, v2: bool, prev: nat, b: Block): Hash {
    var h := rules.hash(if v2 || !b.proofOfStake then b.hash else 0, prev);
    if b.proofOfStake then h / 0x1_0000_0000 else h
  }

  ghost predicate ByTime(cands: seq<Candidate>) {
    forall i, j | 0 <= i < j < |cands| :: cands[i].time <= cands[j].time
  }

  ghost predicate DistinctHashes(cands: seq<Candidate>) {
    forall i, j | 0 <= i < j < |cands| :: cands[i].hash != cands[j].hash
  }

  /** Every candidate is in the block index, under its hash and with its time. */
  ghost predicate Indexed(index: map<Hash, Block>, cands: seq<Candidate>) {
    forall i | 0 <= i < |cands| :: cands[i].hash in index && index[cands[i].hash].hash == cands[i].hash && index[cands[i].hash].time == cands[i].time
  }

  predicate IsV2(rules: Rules, index: map<Hash, Block>, cands: seq<Candidate>) {
    cands != [] && cands[0].hash in index && index[cands[0].hash].height >= rules.upgrade
  }

  /** Not selected yet, and either no later than the round's stop time or the first such. */
  ghost predicate Eligible(cands: seq<Candidate>, selected: set<Hash>, stop: int, j: nat) {
    && j < |cands| && cands[j].hash !in selected
    && (cands[j].time <= stop || forall i | 0 <= i < j :: cands[i].hash in selected)
  }

  function HashAt(rules: Rules, index: map<Hash, Block>, cands: seq<Candidate>, prev: nat, j: nat): Hash
    requires j < |cands| && cands[j].hash in index
  {
    SelectionHash(rules, IsV2(rules, index, cands), prev, index[cands[j].hash])
  }

  /** The first of the eligible candidates with the least selection hash. */
  ghost predicate IsPick(rules: Rules, index: map<Hash, Block>, cands: seq<Candidate>, selected: set<Hash>, stop: int, prev: nat, r: nat)
    requires Indexed(index, cands)
  {
    && Eligible(cands, selected, stop, r)
    && forall j | 0 <= j < |cands| && Eligible(cands, selected, stop, j) ::
         && HashAt(rules, index, cands, prev, r) <= HashAt(rules, index, cands, prev, j)
         && (j < r ==> HashAt(rules, index, cands, prev, r) < HashAt(rules, index, cands, prev, j))
  }

  lemma PickIsUnique(rules: Rules, index: map<Hash, Block>, cands: seq<Candidate>, selected: set<Hash>, stop: int, prev: nat, r: nat, s: nat)
    requires Indexed(index, cands)
    requires IsPick(rules, index, cands, selected, stop, prev, r) && IsPick(rules, index, cands, selected, stop, prev, s)
    ensures r == s
  {
  }

  /** Fails if everything is selected already, or at a candidate that is not indexed. */
  method SelectBlockFromCandidates(rules: Rules, index: map<Hash, Block>, cands: seq<Candidate>, selected: set<Hash>, stop: int, prev: nat)
    returns (ok: bool, r: nat)
    requires ByTime(cands)
    ensures Indexed(index, cands) ==> (ok <==> exists j | 0 <= j < |cands| :: cands[j].hash !in selected)
    ensures Indexed(index, cands) && ok ==> IsPick(rules, index, cands, selected, stop, prev, r)
  {
    var fModifierV2, fSelected := false, false;
    var hashBest := 0;
    r := 0;
    for k := 0 to |cands|
      invariant Indexed(index, cands) ==> (fSelected <==> exists j | 0 <= j < k :: cands[j].hash !in selected)
      invariant k > 0 ==> fModifierV2 == IsV2(rules, index, cands)
      invariant fSelected && Indexed(index, cands) ==>
        && r < k && hashBest == HashAt(rules, index, cands, prev, r) && Eligible(cands, selected, stop, r)
      invariant fSelected && Indexed(index, cands) ==>
        forall j | 0 <= j < k && cands[j].hash !in selected ::
          && hashBest <= HashAt(rules, index, cands, prev, j)
          && (j < r ==> hashBest < HashAt(rules, index, cands, prev, j))
    {
      if cands[k].hash !in index {
        return false, 0;
      }
      var b := index[cands[k].hash];
      if fSelected && b.time > stop {
        break;
      }
      if k == 0 {
        fModifierV2 := b.height >= rules.upgrade;
      }
      if b.hash !in selected {
        var hashSelection := SelectionHash(rules, fModifierV2, prev, b);
        if fSelected && hashSelection < hashBest {
          hashBest, r := hashSelection, k;
        } else if !fSelected {
          fSelected, hashBest, r := true, hashSelection, k;
        }
      }
    }
    ok := fSelected;
  }

  // ---------- all rounds ----------

  function Hashes(cands: seq<Candidate>, picks: seq<nat>): (r: set<Hash>)
    requires InRange(cands, picks)
  {
    set k | 0 <= k < |picks| :: cands[picks[k]].hash
  }

  predicate InRange(cands: seq<Candidate>, picks: seq<nat>) {
    forall k | 0 <= k < |picks| :: picks[k] < |cands|
  }

  /** Round k leaves out the blocks picked before it, and its stop time is k + 1 sections on. */
  ghost predicate Round(rules: Rules, index: map<Hash, Block>, cands: seq<Candidate>, start: int, prev: nat, picks: seq<nat>, k: nat)
    requires Indexed(index, cands) && InRange(cands, picks) && k < |picks| <= ROUNDS
  {
    IsPick(rules, index, cands, Hashes(cands, picks[..k]), start + SectionSum(k + 1), prev, picks[k])
  }

  ghost predicate Picks(rules: Rules, index: map<Hash, Block>, cands: seq<Candidate>, start: int, prev: nat, picks: seq<nat>)
    requires Indexed(index, cands)
  {
    && |picks| <= ROUNDS && InRange(cands, picks)
    && forall k | 0 <= k < |picks| :: Round(rules, index, cands, start, prev, picks, k)
  }

  function Entropies(index: map<Hash, Block>, cands: seq<Candidate>, picks: seq<nat>): (bits: seq<bool>)
    requires forall k | 0 <= k < |picks| :: picks[k] < |cands| && cands[picks[k]].hash in index
    ensures |bits| == |picks|
  {
    seq(|picks|, k requires 0 <= k < |picks| => index[cands[picks[k]].hash].entropy)
  }

  /** No block is picked twice. */
  lemma PicksDiffer(rules: Rules, index: map<Hash, Block>, cands: seq<Candidate>, start: int, prev: nat, picks: seq<nat>)
    requires Indexed(index, cands) && Picks(rules, index, cands, start, prev, picks)
    ensures forall i, j | 0 <= i < j < |picks| :: cands[picks[i]].hash != cands[picks[j]].hash
  {
    forall i, j | 0 <= i < j < |picks| ensures cands[picks[i]].hash != cands[picks[j]].hash {
      assert Round(rules, index, cands, start, prev, picks, j);
      assert picks[..j][i] == picks[i];
      assert cands[picks[..j][i]].hash in Hashes(cands, picks[..j]);
    }
  }

  lemma {:induction false} HashesAreFew(cands: seq<Candidate>, picks: seq<nat>)
    requires InRange(cands, picks)
    ensures |Hashes(cands, picks)| <= |picks|
    decreases |picks|
  {
    if picks == [] {
      assert Hashes(cands, picks) == {};
    } else {
      hide Hashes;
      var n := |picks| - 1;
      HashesAreFew(cands, picks[..n]);
      HashesOfMore(cands, picks[..n], picks[n]);
      assert picks[..n] + [picks[n]] == picks;
    }
  }

  lemma {:induction false} CandidatesAreMany(cands: seq<Candidate>, selected: set<Hash>)
    requires DistinctHashes(cands) && forall j | 0 <= j < |cands| :: cands[j].hash in selected
    ensures |cands| <= |selected|
    decreases |cands|
  {
    if cands != [] {
      var n := |cands| - 1;
      var last := cands[n].hash;
      CandidatesAreMany(cands[..n], selected - {last});
    }
  }

  /** As long as fewer have been picked than there are candidates, the next round finds one. */
  lemma SomeAreLeft(cands: seq<Candidate>, picks: seq<nat>)
    requires DistinctHashes(cands) && |picks| < |cands| && InRange(cands, picks)
    ensures exists j | 0 <= j < |cands| :: cands[j].hash !in Hashes(cands, picks)
  {
    HashesAreFew(cands, picks);
    if forall j | 0 <= j < |cands| :: cands[j].hash in Hashes(cands, picks) {
      CandidatesAreMany(cands, Hashes(cands, picks));
    }
  }

  lemma EntropiesOfMore(index: map<Hash, Block>, cands: seq<Candidate>, picks: seq<nat>, r: nat)
    requires Indexed(index, cands) && r < |cands| && InRange(cands, picks)
    ensures Entropies(index, cands, picks + [r]) == Entropies(index, cands, picks) + [index[cands[r].hash].entropy]
  {
    var more := picks + [r];
    assert forall k | 0 <= k < |picks| :: more[k] == picks[k];
  }

  lemma OneMorePick(rules: Rules, index: map<Hash, Block>, cands: seq<Candidate>, start: int, prev: nat, picks: seq<nat>, r: nat)
    requires Indexed(index, cands) && Picks(rules, index, cands, start, prev, picks) && |picks| < ROUNDS
    requires IsPick(rules, index, cands, Hashes(cands, picks), start + SectionSum(|picks| + 1), prev, r)
    ensures Picks(rules, index, cands, start, prev, picks + [r])
  {
    PickInRange(rules, index, cands, Hashes(cands, picks), start + SectionSum(|picks| + 1), prev, r);
    hide IsPick, SectionSum, Indexed, Hashes, Round;
    forall k | 0 <= k < |picks| + 1 ensures Round(rules, index, cands, start, prev, picks + [r], k) {
      RoundOfMore(rules, index, cands, start, prev, picks, r, k);
    }
  }

  /** A round depends on nothing picked later. */
  lemma EarlierRound(rules: Rules, index: map<Hash, Block>, cands: seq<Candidate>, start: int, prev: nat, picks: seq<nat>, more: seq<nat>, k: nat)
    requires Indexed(index, cands) && InRange(cands, picks) && InRange(cands, more)
    requires k < |picks| <= |more| <= ROUNDS && more[..|picks|] == picks && Round(rules, index, cands, start, prev, picks, k)
    ensures Round(rules, index, cands, start, prev, more, k)
  {
    hide IsPick, SectionSum, Indexed, Hashes, InRange;
    assert more[k] == picks[k] && more[..k] == picks[..k];
  }

  lemma RoundOfMore(rules: Rules, index: map<Hash, Block>, cands: seq<Candidate>, start: int, prev: nat, picks: seq<nat>, r: nat, k: nat)
    requires Indexed(index, cands) && Picks(rules, index, cands, start, prev, picks) && k <= |picks| < ROUNDS && r < |cands|
    requires IsPick(rules, index, cands, Hashes(cands, picks), start + SectionSum(|picks| + 1), prev, r)
    ensures InRange(cands, picks + [r]) && Round(rules, index, cands, start, prev, picks + [r], k)
  {
    hide IsPick, SectionSum, Indexed, Hashes;
    var more := picks + [r];
    assert InRange(cands, more) && more[..|picks|] == picks;
    hide InRange;
    if k < |picks| {
      EarlierRound(rules, index, cands, start, prev, picks, more, k);
    }
  }

  lemma PickInRange(rules: Rules, index: map<Hash, Block>, cands: seq<Candidate>, selected: set<Hash>, stop: int, prev: nat, r: nat)
    requires Indexed(index, cands) && IsPick(rules, index, cands, selected, stop, prev, r)
    ensures r < |cands|
  {
  }

  lemma HashesOfMore(cands: seq<Candidate>, picks: seq<nat>, r: nat)
    requires r < |cands| && InRange(cands, picks)
    ensures Hashes(cands, picks + [r]) == Hashes(cands, picks) + {cands[r].hash}
  {
    var more := picks + [r];
    forall h | h in Hashes(cands, more) ensures h in Hashes(cands, picks) + {cands[r].hash} {
      var k :| 0 <= k < |more| && cands[more[k]].hash == h;
    }
    forall h | h in Hashes(cands, picks) ensures h in Hashes(cands, more) {
      var k :| 0 <= k < |picks| && cands[picks[k]].hash == h;
      assert more[k] == picks[k];
    }
    assert more[|picks|] == r;
  }

  /** The loop over the rounds: with distinct, indexed candidates every round succeeds. */
  method SelectAll(rules: Rules, index: map<Hash, Block>, cands: seq<Candidate>, start: int, prev: nat)
    returns (ok: bool, modifier: nat, ghost picks: seq<nat>)
    requires ByTime(cands) && DistinctHashes(cands) && Indexed(index, cands)
    ensures ok && |picks| == (if |cands| < ROUNDS then |cands| else ROUNDS)
    ensures Picks(rules, index, cands, start, prev, picks)
    ensures modifier == ByteOf(Entropies(index, cands, picks))
  {
    hide IsPick, Hashes, ByteOf, Pow2, Entropies, SectionSum, Round;
    var selected: set<Hash>, stop := {}, start;
    modifier, picks := 0, [];
    NothingYet(index, cands);
    var nRound := 0;
    while nRound < ROUNDS && nRound < |cands|
      invariant nRound <= ROUNDS && nRound <= |cands| && |picks| == nRound
      invariant Picks(rules, index, cands, start, prev, picks)
      invariant selected == Hashes(cands, picks) && stop == start + SectionSum(nRound)
      invariant modifier == ByteOf(Entropies(index, cands, picks))
    {
      SectionStep(nRound);
      stop := stop + Section(nRound);
      SomeAreLeft(cands, picks);
      var r;
      ok, r := SelectBlockFromCandidates(rules, index, cands, selected, stop, prev);
      OneMorePick(rules, index, cands, start, prev, picks, r);
      PickInRange(rules, index, cands, selected, stop, prev, r);
      HashesOfMore(cands, picks, r);
      EntropiesOfMore(index, cands, picks, r);
      var b := index[cands[r].hash];
      OneBitMore(Entropies(index, cands, picks), b.entropy);
      if b.entropy {
        modifier := modifier + Pow2(nRound);
      }
      selected := selected + {b.hash};
      picks := picks + [r];
      nRound := nRound + 1;
    }
    ok := true;
  }

  lemma NothingYet(index: map<Hash, Block>, cands: seq<Candidate>)
    ensures Hashes(cands, []) == {} && ByteOf(Entropies(index, cands, [])) == 0 && SectionSum(0) == 0
  {
    assert Entropies(index, cands, []) == [];
  }

  lemma SectionStep(n: nat)
    requires n < ROUNDS
    ensures SectionSum(n + 1) == SectionSum(n) + Section(n)
  {
  }

  /** Bit k of the modifier is the entropy of the k-th pick, and no higher bit is set. */
  lemma ModifierBits(index: map<Hash, Block>, cands: seq<Candidate>, picks: seq<nat>, k: nat)
    requires forall i | 0 <= i < |picks| :: picks[i] < |cands| && cands[picks[i]].hash in index
    ensures BitAt(ByteOf(Entropies(index, cands, picks)), k) <==> k < |picks| && index[cands[picks[k]].hash].entropy
  {
    ByteOfBits(Entropies(index, cands, picks), k);
  }

  /** The picks of each round are determined by those before, so all nodes make the same. */
  lemma {:induction false} PicksAreUnique(rules: Rules, index: map<Hash, Block>, cands: seq<Candidate>, start: int, prev: nat,
                                          a: seq<nat>, b: seq<nat>, n: nat)
    requires Indexed(index, cands) && Picks(rules, index, cands, start, prev, a) && Picks(rules, index, cands, start, prev, b)
    requires n <= |a| && n <= |b|
    ensures a[..n] == b[..n]
    decreases n
  {
    if n > 0 {
      hide IsPick, Hashes, Indexed, SectionSum;
      PicksAreUnique(rules, index, cands, start, prev, a, b, n - 1);
      assert Round(rules, index, cands, start, prev, a, n - 1) && Round(rules, index, cands, start, prev, b, n - 1);
      PickIsUnique(rules, index, cands, Hashes(cands, a[..n - 1]), start + SectionSum(n), prev, a[n - 1], b[n - 1]);
      assert a[..n] == a[..n - 1] + [a[n - 1]] && b[..n] == b[..n - 1] + [b[n - 1]];
    }
  }

  // ---------- computing the next modifier ----------

  ghost predicate Before(a: Candidate, b: Candidate) {
    a.time < b.time || (a.time == b.time && a.hash <= b.hash)
  }

  function Insert(c: Candidate, s: seq<Candidate>): seq<Candidate> {
    if s == [] then [c]
    else if c.time < s[0].time || (c.time == s[0].time && c.hash <= s[0].hash) then [c] + s
    else [s[0]] + Insert(c, s[1..])
  }

  /** The candidates in order of time stamp and hash. */
  function Sort(s: seq<Candidate>): seq<Candidate> {
    if s == [] then [] else Insert(s[0], Sort(s[1..]))
  }

  ghost predicate Sorted(s: seq<Candidate>) {
    forall i, j | 0 <= i < j < |s| :: Before(s[i], s[j])
  }

  lemma {:induction false} InsertKeeps(c: Candidate, s: seq<Candidate>)
    ensures multiset(Insert(c, s)) == multiset([c]) + multiset(s)
    decreases |s|
  {
    if s != [] {
      assert s == [s[0]] + s[1..];
      if !(c.time < s[0].time || (c.time == s[0].time && c.hash <= s[0].hash)) {
        InsertKeeps(c, s[1..]);
      }
    }
  }

  lemma InsertedFrom(c: Candidate, s: seq<Candidate>, x: Candidate)
    requires x in Insert(c, s)
    ensures x == c || x in s
  {
    InsertKeeps(c, s);
    assert x in multiset(Insert(c, s));
    assert x in multiset([c]) || x in multiset(s);
  }

  lemma SortedFrom(c: Candidate, s: seq<Candidate>)
    requires Sorted(s) && forall x | x in s :: Before(c, x)
    ensures Sorted([c] + s)
  {
    var r := [c] + s;
    forall i, j | 0 <= i < j < |r| ensures Before(r[i], r[j]) {
      assert r[j] == s[j - 1] && s[j - 1] in s;
      assert i > 0 ==> r[i] == s[i - 1];
    }
  }

  lemma {:induction false} InsertSorts(c: Candidate, s: seq<Candidate>)
    requires Sorted(s)
    ensures Sorted(Insert(c, s))
    decreases |s|
  {
    if s != [] {
      if c.time < s[0].time || (c.time == s[0].time && c.hash <= s[0].hash) {
        SortedFrom(c, s);
      } else {
        InsertSorts(c, s[1..]);
        forall x | x in Insert(c, s[1..]) ensures Before(s[0], x) { InsertedFrom(c, s[1..], x); }
        SortedFrom(s[0], Insert(c, s[1..]));
      }
    }
  }

  lemma {:induction false} SortSorts(s: seq<Candidate>)
    ensures Sorted(Sort(s)) && multiset(Sort(s)) == multiset(s)
    decreases |s|
  {
    if s != [] {
      SortSorts(s[1..]);
      InsertSorts(s[0], Sort(s[1..]));
      InsertKeeps(s[0], Sort(s[1..]));
      assert s == [s[0]] + s[1..];
    }
  }

  /** What holds of the candidates as gathered holds of them sorted. */
  lemma SortKeeps(index: map<Hash, Block>, s: seq<Candidate>)
    requires Indexed(index, s) && DistinctHashes(s)
    ensures |Sort(s)| == |s| && ByTime(Sort(s)) && Indexed(index, Sort(s)) && DistinctHashes(Sort(s))
  {
    var r := Sort(s);
    SortSorts(s);
    assert |multiset(r)| == |multiset(s)|;
    assert forall i | 0 <= i < |r| :: Before(r[if i > 0 then i - 1 else 0], r[i]) || i == 0;
    forall i | 0 <= i < |r| ensures r[i] in s { assert r[i] in multiset(r); }
    if i, j :| 0 <= i < j < |r| && r[i].hash == r[j].hash {
      SameHashSameCandidate(index, s, r[i], r[j]);
      RepeatedCounts(r, i, j);
      DistinctCounts(s, r[i]);
    }
  }

  lemma SameHashSameCandidate(index: map<Hash, Block>, s: seq<Candidate>, a: Candidate, b: Candidate)
    requires Indexed(index, s) && a in s && b in s && a.hash == b.hash
    ensures a == b
  {
  }

  lemma RepeatedCounts(r: seq<Candidate>, i: nat, j: nat)
    requires i < j < |r| && r[i] == r[j]
    ensures multiset(r)[r[i]] >= 2
  {
    assert r == r[..j] + [r[j]] + r[j + 1..];
    assert r[i] in r[..j];
    assert multiset(r[..j])[r[i]] >= 1;
  }

  lemma {:induction false} DistinctCounts(s: seq<Candidate>, c: Candidate)
    requires DistinctHashes(s)
    ensures multiset(s)[c] <= 1
    decreases |s|
  {
    if s != [] {
      var n := |s| - 1;
      assert s == s[..n] + [s[n]];
      DistinctCounts(s[..n], c);
      if s[n] == c {
        assert c !in s[..n];
        assert multiset(s[..n])[c] == 0;
      }
    }
  }

  /** Indices of the blocks of a chain, from genesis up; no hash occurs twice. */
  ghost predicate OnChain(index: map<Hash, Block>, chain: seq<Block>) {
    && (forall i | 0 <= i < |chain| :: chain[i].height == i && chain[i].hash in index && index[chain[i].hash] == chain[i])
    && forall i, j | 0 <= i < j < |chain| :: chain[i].hash != chain[j].hash
  }

  /** The last block at which a modifier was generated; genesis if there is no other, generated or not. */
  function LastGenerated(chain: seq<Block>): (b: Block)
    requires chain != []
    ensures b in chain
  {
    var n := |chain| - 1;
    if n == 0 || chain[n].generated then chain[n] else LastGenerated(chain[..n])
  }

  /** The blocks gathered from the end of the chain back to the first that is too old, in chain order. */
  function Gather(chain: seq<Block>, start: int): seq<Candidate> {
    if chain == [] || chain[|chain| - 1].time < start then []
    else
      var b := chain[|chain| - 1];
      Gather(chain[..|chain| - 1], start) + [Candidate(b.time, b.hash)]
  }

  lemma {:induction false} GatheredFrom(chain: seq<Block>, start: int)
    ensures |Gather(chain, start)| <= |chain|
    ensures var k := |chain| - |Gather(chain, start)|;
            forall i | 0 <= i < |Gather(chain, start)| :: Gather(chain, start)[i] == Candidate(chain[k + i].time, chain[k + i].hash)
    decreases |chain|
  {
    if chain != [] && chain[|chain| - 1].time >= start {
      GatheredFrom(chain[..|chain| - 1], start);
    }
  }

  lemma GatheredAreFit(index: map<Hash, Block>, chain: seq<Block>, start: int)
    requires OnChain(index, chain)
    ensures Indexed(index, Gather(chain, start)) && DistinctHashes(Gather(chain, start))
  {
    GatheredFrom(chain, start);
    var s := Gather(chain, start);
    var k := |chain| - |s|;
    assert forall i | 0 <= i < |s| :: s[i].hash == chain[k + i].hash && s[i].time == chain[k + i].time;
  }

  /** Where the candidates start: the selection interval before the current time's interval. */
  function IntervalStart(time: nat): int {
    time / INTERVAL * INTERVAL - SectionSum(ROUNDS)
  }

  datatype Outcome =
    | Failed
    | Kept(modifier: nat)
    | Generated(modifier: nat)

  /** The chain ends at the previous block; `first` is what the block after genesis is given. */
  ghost predicate IsNext(rules: Rules, index: map<Hash, Block>, chain: seq<Block>, first: nat, out: Outcome) {
    if chain == [] then out == Generated(0)
    else if |chain| == 1 then out == Generated(first)
    else
      var last, tip := LastGenerated(chain), chain[|chain| - 1];
      if !last.generated then out == Failed
      else if last.time / INTERVAL >= tip.time / INTERVAL then out == Kept(last.modifier)
      else
        IsPicked(rules, index, Sort(Gather(chain, IntervalStart(tip.time))), IntervalStart(tip.time), last.modifier, out)
  }

  /** A modifier generated from the entropy bits of as many picks as there can be. */
  ghost predicate IsPicked(rules: Rules, index: map<Hash, Block>, cands: seq<Candidate>, start: int, prev: nat, out: Outcome) {
    Indexed(index, cands)
    && exists picks | Picks(rules, index, cands, start, prev, picks) ::
         && |picks| == (if |cands| < ROUNDS then |cands| else ROUNDS)
         && out == Generated(ByteOf(Entropies(index, cands, picks)))
  }

  method ComputeNextStakeModifier(rules: Rules, index: map<Hash, Block>, chain: seq<Block>, first: nat) returns (out: Outcome)
    requires OnChain(index, chain)
    ensures IsNext(rules, index, chain, first, out)
  {
    hide Picks, Sort, Gather, SectionSum, LastGenerated, ByteOf, Entropies;
    if chain == [] {
      return Generated(0);
    }
    var tip := chain[|chain| - 1];
    if tip.height == 0 {
      return Generated(first);
    }
    var last := GetLastStakeModifier(chain);
    if !last.generated {
      return Failed;
    }
    if last.time / INTERVAL >= tip.time / INTERVAL {
      return Kept(last.modifier);
    }
    var interval := GetStakeModifierSelectionInterval();
    var start := tip.time / INTERVAL * INTERVAL - interval;
    var gathered := GatherBack(chain, start);
    GatheredAreFit(index, chain, start);
    SortKeeps(index, gathered);
    var cands := Sort(gathered);
    var ok, modifier;
    ghost var picks;
    ok, modifier, picks := SelectAll(rules, index, cands, start, last.modifier);
    out := Generated(modifier);
  }

  method GetStakeModifierSelectionInterval() returns (interval: nat)
    ensures interval == SectionSum(ROUNDS)
  {
    interval := 0;
    for nSection := 0 to ROUNDS
      invariant interval == SectionSum(nSection)
    {
      interval := interval + Section(nSection);
    }
  }

  method GetLastStakeModifier(chain: seq<Block>) returns (b: Block)
    requires chain != []
    ensures b == LastGenerated(chain)
  {
    var p := |chain| - 1;
    assert chain[..p + 1] == chain;
    while p > 0 && !chain[p].generated
      invariant 0 <= p < |chain| && LastGenerated(chain) == LastGenerated(chain[..p + 1])
    {
      assert chain[..p + 1][..p] == chain[..p];
      p := p - 1;
    }
    b := chain[p];
  }

  /** Collected walking back, then reversed. */
  method GatherBack(chain: seq<Block>, start: int) returns (cands: seq<Candidate>)
    ensures cands == Gather(chain, start)
  {
    var back: seq<Candidate> := [];
    var p := |chain|;
    assert chain[..p] == chain;
    while p > 0 && chain[p - 1].time >= start
      invariant 0 <= p <= |chain| && Gather(chain, start) == Gather(chain[..p], start) + Reversed(back)
    {
      var b := chain[p - 1];
      assert chain[..p][..p - 1] == chain[..p - 1];
      ghost var more := back + [Candidate(b.time, b.hash)];
      assert more[..|back|] == back;
      assert Gather(chain[..p - 1], start) + ([Candidate(b.time, b.hash)] + Reversed(back))
             == Gather(chain[..p - 1], start) + [Candidate(b.time, b.hash)] + Reversed(back);
      back := back + [Candidate(b.time, b.hash)];
      p := p - 1;
    }
    cands := Reversed(back);
  }

  function Reversed(s: seq<Candidate>): seq<Candidate> {
    if s == [] then [] else [s[|s| - 1]] + Reversed(s[..|s| - 1])
  }

  lemma PickedIsUnique(rules: Rules, index: map<Hash, Block>, cands: seq<Candidate>, start: int, prev: nat, a: Outcome, b: Outcome)
    requires IsPicked(rules, index, cands, start, prev, a) && IsPicked(rules, index, cands, start, prev, b)
    ensures a == b
  {
    hide Round, Entropies, ByteOf;
    var p :| Picks(rules, index, cands, start, prev, p)
             && |p| == (if |cands| < ROUNDS then |cands| else ROUNDS) && a == Generated(ByteOf(Entropies(index, cands, p)));
    var q :| Picks(rules, index, cands, start, prev, q)
             && |q| == (if |cands| < ROUNDS then |cands| else ROUNDS) && b == Generated(ByteOf(Entropies(index, cands, q)));
    PicksAreUnique(rules, index, cands, start, prev, p, q, |p|);
    assert p[..|p|] == p && q[..|q|] == q;
  }

  /** Consensus: from the same chain every node computes the same modifier. */
  lemma NextIsUnique(rules: Rules, index: map<Hash, Block>, chain: seq<Block>, first: nat, a: Outcome, b: Outcome)
    requires OnChain(index, chain) && IsNext(rules, index, chain, first, a) && IsNext(rules, index, chain, first, b)
    ensures a == b
  {
    hide OnChain, IsPicked, Sort, Gather, IntervalStart, LastGenerated;
    if |chain| > 1 {
      var last, tip := LastGenerated(chain), chain[|chain| - 1];
      if last.generated && last.time / INTERVAL < tip.time / INTERVAL {
        var start := IntervalStart(tip.time);
        PickedIsUnique(rules, index, Sort(Gather(chain, start)), start, last.modifier, a, b);
      }
    }
  }
}
