/** Votes for the payees of a block, what the block's producer pays them, and what its validators demand. */
module Payments {
  import opened Coins
  import opened Primitives
  import opened Wrappers

  type Script = seq<Byte>

  datatype Payee = Payee(script: Script, votes: int, tier: nat)

  const SIGNATURES_REQUIRED := 6
  const MASTERNODE: nat := 1
  const SUPERNODE: nat := 2

  // ---------- counting votes ----------

  ghost predicate DistinctScripts(t: seq<Payee>) {
    forall i, j | 0 <= i < j < |t| :: t[i].script != t[j].script
  }

  /** Where a script stands in the table, or the table's length. */
  function IndexOf(t: seq<Payee>, script: Script): (k: nat)
    ensures k <= |t| && (k < |t| ==> t[k].script == script) && forall i | 0 <= i < k :: t[i].script != script
  {
    if t == [] || t[0].script == script then 0 else 1 + IndexOf(t[1..], script)
  }

  function AddVotes(t: seq<Payee>, tier: nat, script: Script, n: int): seq<Payee> {
    var k := IndexOf(t, script);
    if k == |t| then t + [Payee(script, n, tier)] else t[k := t[k].(votes := t[k].votes + n)]
  }

  datatype Vote = Vote(tier: nat, script: Script, increment: int)

  /** The table after a list of votes. */
  function Tally(votes: seq<Vote>): seq<Payee> {
    if votes == [] then [] else
      var v := votes[|votes| - 1];
      AddVotes(Tally(votes[..|votes| - 1]), v.tier, v.script, v.increment)
  }

  function VotesFor(votes: seq<Vote>, script: Script): int {
    if votes == [] then 0 else
      var v := votes[|votes| - 1];
      VotesFor(votes[..|votes| - 1], script) + if v.script == script then v.increment else 0
  }

  /** The tier named in the first vote for a script. */
  function TierOf(votes: seq<Vote>, script: Script): Option<nat> {
    if votes == [] then None
    else if votes[0].script == script then Some(votes[0].tier)
    else TierOf(votes[1..], script)
  }

  lemma {:induction false} TierOfMore(votes: seq<Vote>, v: Vote, script: Script)
    ensures TierOf(votes + [v], script)
            == if TierOf(votes, script).Some? then TierOf(votes, script) else if v.script == script then Some(v.tier) else None
    decreases |votes|
  {
    if votes == [] {
      assert ([] + [v])[1..] == [];
    } else {
      assert (votes + [v])[1..] == votes[1..] + [v];
      TierOfMore(votes[1..], v, script);
    }
  }

  /**
   Nothing is lost or counted twice: each script voted for has one entry, with all the votes for it
   and the tier of the first of them, whatever tier later votes name.
   */
  lemma {:induction false} VotesAreCounted(votes: seq<Vote>, script: Script)
    ensures DistinctScripts(Tally(votes))
    ensures var t := Tally(votes); var k := IndexOf(t, script);
            if TierOf(votes, script).None? then k == |t| && VotesFor(votes, script) == 0
            else k < |t| && t[k] == Payee(script, VotesFor(votes, script), TierOf(votes, script).value)
    decreases |votes|
  {
    if votes != [] {
      var before, v := votes[..|votes| - 1], votes[|votes| - 1];
      assert votes == before + [v];
      TierOfMore(before, v, script);
      VotesAreCounted(before, script);
      VotesAreCounted(before, v.script);
      AddKeepsDistinct(Tally(before), v);
      hide AddVotes;
      if script == v.script {
        AddCounts(Tally(before), v);
      } else {
        AddLeavesOther(Tally(before), v, script);
      }
    }
  }

  lemma IndexIs(t: seq<Payee>, script: Script, k: nat)
    requires k <= |t| && (forall i | 0 <= i < k :: t[i].script != script) && (k < |t| ==> t[k].script == script)
    ensures IndexOf(t, script) == k
  {
  }

  lemma AddKeepsDistinct(t: seq<Payee>, v: Vote)
    requires DistinctScripts(t)
    ensures DistinctScripts(AddVotes(t, v.tier, v.script, v.increment))
  {
  }

  lemma AddLeavesOther(t: seq<Payee>, v: Vote, script: Script)
    requires script != v.script
    ensures var r := AddVotes(t, v.tier, v.script, v.increment); var j, k := IndexOf(t, script), IndexOf(r, script);
            (k < |r| <==> j < |t|) && (k < |r| ==> r[k] == t[j])
  {
    var r, j := AddVotes(t, v.tier, v.script, v.increment), IndexOf(t, script);
    IndexIs(r, script, if j < |t| then j else |r|);
  }

  lemma AddCounts(t: seq<Payee>, v: Vote)
    ensures var r := AddVotes(t, v.tier, v.script, v.increment); var j, k := IndexOf(t, v.script), IndexOf(r, v.script);
            k < |r| && r[k] == if j < |t| then t[j].(votes := t[j].votes + v.increment) else Payee(v.script, v.increment, v.tier)
  {
    IndexIs(AddVotes(t, v.tier, v.script, v.increment), v.script, IndexOf(t, v.script));
  }

  // ---------- the payee of a tier ----------

  /** The first entry of the tier with the most votes among the first n, if there is any. */
  predicate IsBest(t: seq<Payee>, tier: nat, n: nat, best: Option<nat>) {
    n <= |t| &&
    match best
    case None => forall i | 0 <= i < n :: t[i].tier != tier
    case Some(k) => k < n && t[k].tier == tier
                    && (forall i | 0 <= i < n && t[i].tier == tier :: t[i].votes <= t[k].votes)
                    && (forall i | 0 <= i < k && t[i].tier == tier :: t[i].votes < t[k].votes)
  }

  /** There is only one: of equals the first. */
  lemma BestIsUnique(t: seq<Payee>, tier: nat, n: nat, a: Option<nat>, b: Option<nat>)
    requires IsBest(t, tier, n, a) && IsBest(t, tier, n, b)
    ensures a == b
  {
    assert a.Some? ==> t[a.value].tier == tier;
    assert b.Some? ==> t[b.value].tier == tier;
  }

  // ---------- validation ----------

  predicate Qualified(p: Payee) { p.votes >= SIGNATURES_REQUIRED }

  /** Some output pays the script at least the amount. */
  predicate Pays(vout: seq<TxOut>, script: Script, amount: int) {
    exists o | 0 <= o < |vout| :: vout[o].script == script && vout[o].value >= amount
  }

  predicate PaidFor(t: seq<Payee>, required: nat -> int, vout: seq<TxOut>, tier: nat, n: nat)
    requires n <= |t|
  {
    exists j | 0 <= j < n :: Qualified(t[j]) && t[j].tier == tier && Pays(vout, t[j].script, required(tier))
  }

  /** For every tier with a qualified payee, some qualified payee of that tier gets what the tier requires. */
  predicate Accepts(t: seq<Payee>, required: nat -> int, vout: seq<TxOut>) {
    forall i | 0 <= i < |t| && Qualified(t[i]) :: PaidFor(t, required, vout, t[i].tier, |t|)
  }

  predicate OfTwoTiers(t: seq<Payee>) {
    forall i | 0 <= i < |t| && Qualified(t[i]) :: t[i].tier == MASTERNODE || t[i].tier == SUPERNODE
  }

  // ---------- production ----------

  /** Block rewards and each tier's share of them: any functions will do. */
  datatype Rewards = Rewards(blockValue: int -> int, share: (int, int, nat) -> int)

  function Share(r: Rewards, height: int, tier: nat): int { r.share(height, r.blockValue(height), tier) }

  /** What a block of the height must pay each tier. */
  function Required(r: Rewards, height: int): nat -> int {
    (tier: nat) => Share(r, height, tier)
  }

  /** What a payment output becomes: the tier's share to its payee, or nothing. */
  function PaymentOut(payee: Option<Script>, amount: int): TxOut {
    if payee.Some? then TxOut(amount, payee.value) else TxOut(0, [])
  }

  /** FillBlockPayee for a block on top of one at the given height; mn and sn are the payees of the two tiers. */
  function Fill(r: Rewards, height: int, vout: seq<TxOut>, proofOfStake: bool, mn: Option<Script>, sn: Option<Script>): seq<TxOut>
    requires vout != []
  {
    var a, b := Share(r, height, MASTERNODE), Share(r, height, SUPERNODE);
    if proofOfStake then
      var last := |vout| - 1;
      vout[last := vout[last].(value := vout[last].value - (a + b))] + [PaymentOut(mn, a), PaymentOut(sn, b)]
    else if mn.None? && sn.None? then vout[0 := vout[0].(value := r.blockValue(height))]
    else
      var w := Resize(vout, 3);
      [w[0].(value := r.blockValue(height) - (a + b)), PaymentOut(mn, a), PaymentOut(sn, b)]
  }

  /** Who is paid for a tier: the voted payee, or else the masternode whose turn it is, if any. */
  ghost predicate IsPayee(t: seq<Payee>, tier: nat, fallback: Option<Script>, payee: Option<Script>) {
    exists best: Option<nat> :: IsBest(t, tier, |t|, best) && payee == if best.Some? then Some(t[best.value].script) else fallback
  }

  /** Where a filled transaction pays a tier. */
  function PlaceOf(out: seq<TxOut>, tier: nat): int {
    if tier == MASTERNODE then |out| - 2 else if tier == SUPERNODE then |out| - 1 else -1
  }

  /** An output elsewhere pays a qualified payee of the tier what the next height requires. */
  predicate PaidElsewhere(t: seq<Payee>, required: nat -> int, out: seq<TxOut>, tier: nat) {
    exists j | 0 <= j < |t| :: Qualified(t[j]) && t[j].tier == tier
      && exists o | 0 <= o < |out| && o != PlaceOf(out, tier) :: out[o].script == t[j].script && out[o].value >= required(tier)
  }

  /** The tier is one that is paid, and what it gets is enough one block later. */
  predicate ShareHolds(r: Rewards, height: int, tier: nat) {
    (tier == MASTERNODE || tier == SUPERNODE) && Share(r, height + 1, tier) <= Share(r, height, tier)
  }

  predicate SharesHold(t: seq<Payee>, r: Rewards, height: int) {
    forall i | 0 <= i < |t| && Qualified(t[i]) :: ShareHolds(r, height, t[i].tier)
  }

  lemma PlacesAreFilled(r: Rewards, height: int, vout: seq<TxOut>, proofOfStake: bool, mn: Option<Script>, sn: Option<Script>)
    requires vout != []
    ensures var out := Fill(r, height, vout, proofOfStake, mn, sn);
            mn.Some? || sn.Some? ==> |out| >= 3 && out[|out| - 2] == PaymentOut(mn, Share(r, height, MASTERNODE))
                                     && out[|out| - 1] == PaymentOut(sn, Share(r, height, SUPERNODE))
  {
  }

  /** A tier with a qualified payee pays the best of its payees, who is qualified. */
  lemma BestIsQualified(t: seq<Payee>, i: nat, fallback: Option<Script>, payee: Option<Script>) returns (k: nat)
    requires i < |t| && Qualified(t[i]) && IsPayee(t, t[i].tier, fallback, payee)
    ensures k < |t| && Qualified(t[k]) && t[k].tier == t[i].tier && payee == Some(t[k].script)
  {
    var best: Option<nat> :| IsBest(t, t[i].tier, |t|, best) && payee == if best.Some? then Some(t[best.value].script) else fallback;
    k := best.value;
  }

  lemma TierIsPaid(t: seq<Payee>, r: Rewards, height: int, out: seq<TxOut>, i: nat, fallback: Option<Script>, payee: Option<Script>)
    requires i < |t| && Qualified(t[i]) && (t[i].tier == MASTERNODE || t[i].tier == SUPERNODE)
    requires IsPayee(t, t[i].tier, fallback, payee)
    requires payee.Some? ==> |out| >= 3 && out[PlaceOf(out, t[i].tier)] == PaymentOut(payee, Share(r, height, t[i].tier))
    ensures PaidFor(t, Required(r, height + 1), out, t[i].tier, |t|)
            <==> ShareHolds(r, height, t[i].tier) || PaidElsewhere(t, Required(r, height + 1), out, t[i].tier)
  {
    var tier, required := t[i].tier, Required(r, height + 1);
    var k := BestIsQualified(t, i, fallback, payee);
    if ShareHolds(r, height, tier) {
      assert Pays(out, t[k].script, required(tier));
    }
    if PaidElsewhere(t, required, out, tier) {
      var j :| 0 <= j < |t| && Qualified(t[j]) && t[j].tier == tier
               && exists o | 0 <= o < |out| && o != PlaceOf(out, tier) :: out[o].script == t[j].script && out[o].value >= required(tier);
      assert Pays(out, t[j].script, required(tier));
    }
    if PaidFor(t, required, out, tier, |t|) {
      var j :| 0 <= j < |t| && Qualified(t[j]) && t[j].tier == tier && Pays(out, t[j].script, required(tier));
      var o :| 0 <= o < |out| && out[o].script == t[j].script && out[o].value >= required(tier);
      if o != PlaceOf(out, tier) {
        assert PaidElsewhere(t, required, out, tier);
      }
    }
  }

  /**
   Agreement, exactly: a transaction filled from the same votes is accepted at the next height if
   and only if each tier with a qualified payee is one of the two that are paid and its share does
   not rise from the one height to the next, or another output happens to make up for it.
   */
  lemma FilledIsAcceptedIff(t: seq<Payee>, r: Rewards, height: int, vout: seq<TxOut>, proofOfStake: bool,
                            fallback1: Option<Script>, fallback2: Option<Script>, mn: Option<Script>, sn: Option<Script>)
    requires vout != []
    requires IsPayee(t, MASTERNODE, fallback1, mn) && IsPayee(t, SUPERNODE, fallback2, sn)
    ensures var out := Fill(r, height, vout, proofOfStake, mn, sn);
            Accepts(t, Required(r, height + 1), out) <==>
            forall i | 0 <= i < |t| && Qualified(t[i]) ::
              ShareHolds(r, height, t[i].tier) || PaidElsewhere(t, Required(r, height + 1), out, t[i].tier)
  {
    var out, required := Fill(r, height, vout, proofOfStake, mn, sn), Required(r, height + 1);
    PlacesAreFilled(r, height, vout, proofOfStake, mn, sn);
    forall i | 0 <= i < |t| && Qualified(t[i])
      ensures PaidFor(t, required, out, t[i].tier, |t|)
              <==> ShareHolds(r, height, t[i].tier) || PaidElsewhere(t, required, out, t[i].tier)
    {
      if t[i].tier == MASTERNODE {
        TierIsPaid(t, r, height, out, i, fallback1, mn);
      } else if t[i].tier == SUPERNODE {
        TierIsPaid(t, r, height, out, i, fallback2, sn);
      } else {
        OtherTierIsPaid(t, required, out, t[i].tier);
      }
    }
  }

  lemma OtherTierIsPaid(t: seq<Payee>, required: nat -> int, out: seq<TxOut>, tier: nat)
    requires tier != MASTERNODE && tier != SUPERNODE
    ensures PaidFor(t, required, out, tier, |t|) <==> PaidElsewhere(t, required, out, tier)
  {
    if PaidElsewhere(t, required, out, tier) {
      var j :| 0 <= j < |t| && Qualified(t[j]) && t[j].tier == tier
               && exists o | 0 <= o < |out| && o != PlaceOf(out, tier) :: out[o].script == t[j].script && out[o].value >= required(tier);
      assert Pays(out, t[j].script, required(tier));
    }
    if PaidFor(t, required, out, tier, |t|) {
      var j :| 0 <= j < |t| && Qualified(t[j]) && t[j].tier == tier && Pays(out, t[j].script, required(tier));
      var o :| 0 <= o < |out| && out[o].script == t[j].script && out[o].value >= required(tier);
      assert o != PlaceOf(out, tier);
    }
  }

  /** Scripts are not empty, and only the payments made for the votes carry a payee's script. */
  ghost predicate PaidOnlyByVote(t: seq<Payee>, vout: seq<TxOut>, fallback1: Option<Script>, fallback2: Option<Script>) {
    forall i | 0 <= i < |t| ::
      && t[i].script != [] && fallback1 != Some(t[i].script) && fallback2 != Some(t[i].script)
      && forall o | 0 <= o < |vout| :: vout[o].script != t[i].script
  }

  lemma PaymentIsToTier(t: seq<Payee>, vout: seq<TxOut>, tier: nat, fallback1: Option<Script>, fallback2: Option<Script>,
                        fallback: Option<Script>, payee: Option<Script>, amount: int, j: nat)
    requires DistinctScripts(t) && PaidOnlyByVote(t, vout, fallback1, fallback2) && fallback in {fallback1, fallback2}
    requires IsPayee(t, tier, fallback, payee) && j < |t|
    ensures PaymentOut(payee, amount).script == t[j].script ==> t[j].tier == tier
  {
    var best: Option<nat> :| IsBest(t, tier, |t|, best) && payee == if best.Some? then Some(t[best.value].script) else fallback;
    if best.Some? && t[best.value].script == t[j].script {
      assert best.value == j;
    }
  }

  /** With no such coincidences, rising shares are all that can make a producer's block invalid. */
  lemma FilledIsAccepted(t: seq<Payee>, r: Rewards, height: int, vout: seq<TxOut>, proofOfStake: bool,
                         fallback1: Option<Script>, fallback2: Option<Script>, mn: Option<Script>, sn: Option<Script>)
    requires vout != []
    requires IsPayee(t, MASTERNODE, fallback1, mn) && IsPayee(t, SUPERNODE, fallback2, sn)
    ensures var accepted := Accepts(t, Required(r, height + 1), Fill(r, height, vout, proofOfStake, mn, sn));
            && (SharesHold(t, r, height) ==> accepted)
            && (DistinctScripts(t) && PaidOnlyByVote(t, vout, fallback1, fallback2) ==> (accepted <==> SharesHold(t, r, height)))
  {
    var out, required := Fill(r, height, vout, proofOfStake, mn, sn), Required(r, height + 1);
    FilledIsAcceptedIff(t, r, height, vout, proofOfStake, fallback1, fallback2, mn, sn);
    if DistinctScripts(t) && PaidOnlyByVote(t, vout, fallback1, fallback2) {
      forall i | 0 <= i < |t| && Qualified(t[i]) ensures !PaidElsewhere(t, required, out, t[i].tier) {
        NothingElsePays(t, r, height, vout, proofOfStake, fallback1, fallback2, mn, sn, t[i].tier);
      }
    }
  }

  lemma NothingElsePays(t: seq<Payee>, r: Rewards, height: int, vout: seq<TxOut>, proofOfStake: bool,
                        fallback1: Option<Script>, fallback2: Option<Script>, mn: Option<Script>, sn: Option<Script>, tier: nat)
    requires vout != []
    requires IsPayee(t, MASTERNODE, fallback1, mn) && IsPayee(t, SUPERNODE, fallback2, sn)
    requires DistinctScripts(t) && PaidOnlyByVote(t, vout, fallback1, fallback2)
    ensures !PaidElsewhere(t, Required(r, height + 1), Fill(r, height, vout, proofOfStake, mn, sn), tier)
  {
    var out := Fill(r, height, vout, proofOfStake, mn, sn);
    PlacesAreFilled(r, height, vout, proofOfStake, mn, sn);
    forall j, o | 0 <= j < |t| && t[j].tier == tier && 0 <= o < |out| && o != PlaceOf(out, tier)
      ensures out[o].script != t[j].script
    {
      PaymentIsToTier(t, vout, MASTERNODE, fallback1, fallback2, fallback1, mn, Share(r, height, MASTERNODE), j);
      PaymentIsToTier(t, vout, SUPERNODE, fallback1, fallback2, fallback2, sn, Share(r, height, SUPERNODE), j);
      FilledFromVout(r, height, vout, proofOfStake, mn, sn, o);
    }
  }

  /** The other outputs are those there were, with the same scripts, or empty ones. */
  lemma FilledFromVout(r: Rewards, height: int, vout: seq<TxOut>, proofOfStake: bool, mn: Option<Script>, sn: Option<Script>, o: nat)
    requires vout != [] && o < |Fill(r, height, vout, proofOfStake, mn, sn)|
    ensures var out := Fill(r, height, vout, proofOfStake, mn, sn);
            || (o < |vout| && out[o].script == vout[o].script) || out[o].script == []
            || (o == |out| - 2 && out[o] == PaymentOut(mn, Share(r, height, MASTERNODE)))
            || (o == |out| - 1 && out[o] == PaymentOut(sn, Share(r, height, SUPERNODE)))
  {
  }

  // ---------- the rewards there are ----------

  const MAX_REWARD: int := 10
  const SLOW_START_BLOCK: int := 10000

  function GetBlockValue(height: int): int {
    if height == 0 then 2650000 * COIN
    else if 0 < height <= SLOW_START_BLOCK then COIN / 10
    else if SLOW_START_BLOCK < height <= 262800 then MAX_REWARD * COIN
    else if 262800 < height <= 525600 then 8 * COIN
    else if 525600 < height <= 788400 then 6 * COIN
    else if height > 788400 then 4 * COIN
    else 0
  }

  /** 40% for either tier at any height but 0; a product of floating-point numbers, exact for the values there are. */
  function GetMasternodePayment(height: int, blockValue: int, tier: nat): int {
    if height == 0 then 0 else blockValue * 4 / 10
  }

  const ActualRewards := Rewards(GetBlockValue, GetMasternodePayment)

  /** The producer pays by the height of the block before: too little for blocks 1 and 10001, enough for all others. */
  lemma WhenSharesRise(t: seq<Payee>, height: int)
    requires height >= 0
    ensures SharesHold(t, ActualRewards, height)
            <==> OfTwoTiers(t) && ((exists i | 0 <= i < |t| :: Qualified(t[i])) ==> height != 0 && height != SLOW_START_BLOCK)
    ensures GetBlockValue(height) * 4 % 10 == 0
  {
    assert forall tier :: Share(ActualRewards, height + 1, tier) <= Share(ActualRewards, height, tier)
                          <==> height != 0 && height != SLOW_START_BLOCK;
    if SharesHold(t, ActualRewards, height) {
      forall i | 0 <= i < |t| && Qualified(t[i]) ensures height != 0 && height != SLOW_START_BLOCK && (t[i].tier == MASTERNODE || t[i].tier == SUPERNODE) {
        assert ShareHolds(ActualRewards, height, t[i].tier);
      }
    }
  }

  /** Six votes for one masternode, and the first block after the slow start is refused. */
  lemma FirstFullBlockIsRefused()
    ensures var t := [Payee([1], 6, MASTERNODE)];
            && IsPayee(t, MASTERNODE, None, Some([1])) && IsPayee(t, SUPERNODE, None, None)
            && !Accepts(t, Required(ActualRewards, SLOW_START_BLOCK + 1),
                        Fill(ActualRewards, SLOW_START_BLOCK, [TxOut(0, [])], true, Some([1]), None))
  {
    var t := [Payee([1], 6, MASTERNODE)];
    assert IsBest(t, MASTERNODE, 1, Some(0)) && IsBest(t, SUPERNODE, 1, None);
    FilledIsAccepted(t, ActualRewards, SLOW_START_BLOCK, [TxOut(0, [])], true, None, None, Some([1]), None);
    WhenSharesRise(t, SLOW_START_BLOCK);
    assert Qualified(t[0]);
  }

  // ---------- conservation ----------

  function Total(vout: seq<TxOut>): int {
    if vout == [] then 0 else Total(vout[..|vout| - 1]) + vout[|vout| - 1].value
  }

  lemma TotalOfMore(vout: seq<TxOut>, o: TxOut)
    ensures Total(vout + [o]) == Total(vout) + o.value
  {
    assert (vout + [o])[..|vout|] == vout;
  }

  /** What the tiers without a payee leave unpaid. */
  function Unpaid(r: Rewards, height: int, mn: Option<Script>, sn: Option<Script>): int {
    (if mn.None? then Share(r, height, MASTERNODE) else 0) + (if sn.None? then Share(r, height, SUPERNODE) else 0)
  }

  /**
   A stake transaction pays out what it did before, less the shares of tiers without a payee; a work
   transaction pays the block value, less those shares - but all of it, and what other outputs it
   has, if neither tier has a payee.
   */
  lemma FillConserves(r: Rewards, height: int, vout: seq<TxOut>, proofOfStake: bool, mn: Option<Script>, sn: Option<Script>)
    requires vout != []
    ensures Total(Fill(r, height, vout, proofOfStake, mn, sn))
            == if proofOfStake then Total(vout) - Unpaid(r, height, mn, sn)
               else if mn.None? && sn.None? then r.blockValue(height) + Total(vout) - vout[0].value
               else r.blockValue(height) - Unpaid(r, height, mn, sn)
  {
    if proofOfStake {
      StakeConserves(r, height, vout, mn, sn);
    } else {
      WorkConserves(r, height, vout, mn, sn);
    }
  }

  lemma ReplaceLast(vout: seq<TxOut>, value: int, x: TxOut, y: TxOut)
    requires vout != []
    ensures var last := |vout| - 1;
            Total(vout[last := vout[last].(value := value)] + [x, y]) == Total(vout) - vout[last].value + value + x.value + y.value
  {
    hide Total;
    var last := |vout| - 1;
    var stake := vout[last].(value := value);
    TotalOfThree(vout[..last], stake, x, y);
    TotalOfMore(vout[..last], vout[last]);
    assert vout[..last] + [vout[last]] == vout;
    assert vout[last := stake] + [x, y] == vout[..last] + [stake, x, y];
  }

  lemma StakeConserves(r: Rewards, height: int, vout: seq<TxOut>, mn: Option<Script>, sn: Option<Script>)
    requires vout != []
    ensures Total(Fill(r, height, vout, true, mn, sn)) == Total(vout) - Unpaid(r, height, mn, sn)
  {
    hide Total, Share;
    var a, b := Share(r, height, MASTERNODE), Share(r, height, SUPERNODE);
    ReplaceLast(vout, vout[|vout| - 1].value - (a + b), PaymentOut(mn, a), PaymentOut(sn, b));
  }

  lemma WorkConserves(r: Rewards, height: int, vout: seq<TxOut>, mn: Option<Script>, sn: Option<Script>)
    requires vout != []
    ensures Total(Fill(r, height, vout, false, mn, sn))
            == r.blockValue(height) + if mn.None? && sn.None? then Total(vout) - vout[0].value else -Unpaid(r, height, mn, sn)
  {
    hide Total, Share;
    if mn.None? && sn.None? {
      TotalAfter(vout, vout[0].(value := r.blockValue(height)));
    } else {
      var a, b := Share(r, height, MASTERNODE), Share(r, height, SUPERNODE);
      var w := Resize(vout, 3)[0].(value := r.blockValue(height) - (a + b));
      TotalOfJust(w, PaymentOut(mn, a), PaymentOut(sn, b));
    }
  }

  lemma {:induction false} TotalAfter(vout: seq<TxOut>, first: TxOut)
    requires vout != []
    ensures Total(vout[0 := first]) == Total(vout) - vout[0].value + first.value
    decreases |vout|
  {
    var init := vout[..|vout| - 1];
    if init == [] {
      TotalOfMore([], first);
      assert vout[0 := first] == [] + [first];
    } else {
      TotalAfter(init, first);
      assert vout[0 := first][..|vout| - 1] == init[0 := first];
    }
  }

  lemma TotalOfThree(vout: seq<TxOut>, x: TxOut, y: TxOut, z: TxOut)
    ensures Total(vout + [x, y, z]) == Total(vout) + x.value + y.value + z.value
  {
    hide Total;
    TotalOfMore(vout, x);
    TotalOfMore(vout + [x], y);
    TotalOfMore(vout + [x] + [y], z);
    assert vout + [x, y, z] == vout + [x] + [y] + [z];
  }

  lemma TotalOfJust(x: TxOut, y: TxOut, z: TxOut)
    ensures Total([x, y, z]) == x.value + y.value + z.value
  {
    TotalOfThree([], x, y, z);
    assert [] + [x, y, z] == [x, y, z];
  }

  // ---------- the vote table of one block ----------

  class BlockPayees {
    const nBlockHeight: int
    var vecPayments: seq<Payee>

    constructor (height: int)
      ensures nBlockHeight == height && vecPayments == []
    {
      nBlockHeight, vecPayments := height, [];
    }

    method Find(script: Script) returns (k: nat)
      ensures k == IndexOf(vecPayments, script) && vecPayments == old(vecPayments)
    {
      k := 0;
      assert vecPayments[0..] == vecPayments;
      while k < |vecPayments| && vecPayments[k].script != script
        invariant k <= |vecPayments| && IndexOf(vecPayments, script) == k + IndexOf(vecPayments[k..], script)
      {
        assert vecPayments[k..][1..] == vecPayments[k + 1..];
        k := k + 1;
      }
    }

    method AddPayee(tier: nat, script: Script, increment: int)
      modifies this
      ensures vecPayments == AddVotes(old(vecPayments), tier, script, increment)
    {
      var k := Find(script);
      if k == |vecPayments| {
        vecPayments := vecPayments + [Payee(script, increment, tier)];
      } else {
        vecPayments := vecPayments[k := vecPayments[k].(votes := vecPayments[k].votes + increment)];
      }
    }

    method GetPayee(tier: nat) returns (payee: Option<Script>)
      ensures exists best: Option<nat> :: IsBest(vecPayments, tier, |vecPayments|, best)
                             && payee == if best.Some? then Some(vecPayments[best.value].script) else None
      ensures vecPayments == old(vecPayments)
    {
      var payment: Option<nat> := None;
      for p := 0 to |vecPayments|
        invariant IsBest(vecPayments, tier, p, payment)
      {
        if vecPayments[p].tier == tier {
          if payment.None? || vecPayments[p].votes > vecPayments[payment.value].votes {
            payment := Some(p);
          }
        }
      }
      payee := if payment.Some? then Some(vecPayments[payment.value].script) else None;
    }

    method HasPayeeWithVotes(script: Script, votes: int) returns (found: bool)
      ensures found <==> exists p | p in vecPayments :: p.votes >= votes && p.script == script
      ensures vecPayments == old(vecPayments)
    {
      for i := 0 to |vecPayments|
        invariant forall j | 0 <= j < i :: !(vecPayments[j].votes >= votes && vecPayments[j].script == script)
      {
        if vecPayments[i].votes >= votes && vecPayments[i].script == script {
          assert vecPayments[i] in vecPayments;
          return true;
        }
      }
      return false;
    }

    method FindPayment(vout: seq<TxOut>, script: Script, amount: int) returns (found: bool)
      ensures found <==> Pays(vout, script, amount)
      ensures vecPayments == old(vecPayments)
    {
      for o := 0 to |vout|
        invariant forall j | 0 <= j < o :: !(vout[j].script == script && vout[j].value >= amount)
      {
        if vout[o].script == script && vout[o].value >= amount {
          return true;
        }
      }
      return false;
    }

    /** The most votes of a qualified payee, tier by tier. */
    method MaxSignatures() returns (m: map<nat, int>)
      ensures forall tier :: tier in m <==> exists i | 0 <= i < |vecPayments| :: Qualified(vecPayments[i]) && vecPayments[i].tier == tier
      ensures vecPayments == old(vecPayments)
    {
      m := map[];
      for i := 0 to |vecPayments|
        invariant forall tier :: tier in m <==> exists j | 0 <= j < i :: Qualified(vecPayments[j]) && vecPayments[j].tier == tier
      {
        var p := vecPayments[i];
        ghost var before := m;
        if Qualified(p) {
          if p.tier !in m || p.votes >= m[p.tier] {
            m := m[p.tier := p.votes];
          }
        }
        forall tier ensures tier in m <==> exists j | 0 <= j < i + 1 :: Qualified(vecPayments[j]) && vecPayments[j].tier == tier {
          if tier in before {
            var j :| 0 <= j < i && Qualified(vecPayments[j]) && vecPayments[j].tier == tier;
          }
          if tier in m && tier !in before {
            assert Qualified(vecPayments[i]) && vecPayments[i].tier == tier;
          }
        }
      }
    }

    method IsTransactionValid(required: nat -> int, vout: seq<TxOut>) returns (ok: bool)
      ensures ok <==> Accepts(vecPayments, required, vout)
      ensures vecPayments == old(vecPayments)
    {
      hide PaidFor, Pays, Accepts;
      var maxSignatures := MaxSignatures();
      ghost var tiers := maxSignatures.Keys;
      assert forall i | 0 <= i < |vecPayments| && Qualified(vecPayments[i]) :: vecPayments[i].tier in tiers;
      if |maxSignatures| == 0 {
        AllPaid(vecPayments, required, vout, {}, 0);
        return true;
      }
      NonePaidYet(vecPayments, required, vout);
      for i := 0 to |vecPayments|
        invariant maxSignatures.Keys <= tiers && |maxSignatures| > 0
        invariant forall tier | tier in tiers :: tier in maxSignatures <==> !PaidFor(vecPayments, required, vout, tier, i)
      {
        var p := vecPayments[i];
        PaidForMore(vecPayments, required, vout, i);
        if Qualified(p) {
          var found := FindPayment(vout, p.script, required(p.tier));
          if found {
            maxSignatures := maxSignatures - {p.tier};
            if |maxSignatures| == 0 {
              AllPaid(vecPayments, required, vout, tiers, i + 1);
              return true;
            }
          }
        }
      }
      SomeUnpaid(vecPayments, required, vout, maxSignatures);
      return false;
    }
  }

  lemma NonePaidYet(t: seq<Payee>, required: nat -> int, vout: seq<TxOut>)
    ensures forall tier: nat :: !PaidFor(t, required, vout, tier, 0)
  {
  }

  lemma SomeUnpaid(t: seq<Payee>, required: nat -> int, vout: seq<TxOut>, m: map<nat, int>)
    requires |m| > 0
    requires forall tier | tier in m :: !PaidFor(t, required, vout, tier, |t|)
    requires forall tier | tier in m :: exists i | 0 <= i < |t| :: Qualified(t[i]) && t[i].tier == tier
    ensures !Accepts(t, required, vout)
  {
    hide PaidFor;
    assert m.Keys != {};
    var tier :| tier in m;
    var i :| 0 <= i < |t| && Qualified(t[i]) && t[i].tier == tier;
    assert !PaidFor(t, required, vout, t[i].tier, |t|);
  }

  lemma PaidForMore(t: seq<Payee>, required: nat -> int, vout: seq<TxOut>, n: nat)
    requires n < |t|
    ensures forall tier :: PaidFor(t, required, vout, tier, n + 1)
              <==> PaidFor(t, required, vout, tier, n) || (Qualified(t[n]) && t[n].tier == tier && Pays(vout, t[n].script, required(tier)))
  {
    forall tier
      ensures PaidFor(t, required, vout, tier, n + 1)
              <==> PaidFor(t, required, vout, tier, n) || (Qualified(t[n]) && t[n].tier == tier && Pays(vout, t[n].script, required(tier)))
    {
      if PaidFor(t, required, vout, tier, n) {
        var j :| 0 <= j < n && Qualified(t[j]) && t[j].tier == tier && Pays(vout, t[j].script, required(tier));
      }
    }
  }

  lemma AllPaid(t: seq<Payee>, required: nat -> int, vout: seq<TxOut>, tiers: set<nat>, n: nat)
    requires n <= |t| && forall tier | tier in tiers :: PaidFor(t, required, vout, tier, n)
    requires forall i | 0 <= i < |t| && Qualified(t[i]) :: t[i].tier in tiers
    ensures Accepts(t, required, vout)
  {
    forall i | 0 <= i < |t| && Qualified(t[i]) ensures PaidFor(t, required, vout, t[i].tier, |t|) {
      assert PaidFor(t, required, vout, t[i].tier, n);
    }
  }
}
