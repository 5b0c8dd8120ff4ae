/** CMasternodePayments: the vote tables of all heights, filling a block's payments and checking them. */
module BlockPayments {
  import opened Coins
  import opened Primitives
  import opened Wrappers
  import opened Payments

  class MasternodePayments {
    const rewards: Rewards
    var seenVotes: set<Hash>
    var mapMasternodeBlocks: map<int, BlockPayees>

    ghost predicate Valid()
      reads this, mapMasternodeBlocks.Values
    {
      forall h | h in mapMasternodeBlocks ::
        mapMasternodeBlocks[h].nBlockHeight == h && DistinctScripts(mapMasternodeBlocks[h].vecPayments)
    }

    /** The votes for a height; none if nothing has been heard about it. */
    function TableAt(h: int): seq<Payee>
      reads this, mapMasternodeBlocks.Values
    {
      if h in mapMasternodeBlocks then mapMasternodeBlocks[h].vecPayments else []
    }

    constructor (rewards: Rewards)
      ensures Valid() && this.rewards == rewards && seenVotes == {} && mapMasternodeBlocks == map[]
    {
      this.rewards, seenVotes, mapMasternodeBlocks := rewards, {}, map[];
    }

    /** A vote counts once, and only if the block a hundred before its height is known. */
    method AddWinningMasternode(known: bool, hash: Hash, height: int, tier: nat, script: Script) returns (added: bool)
      requires Valid()
      modifies this, mapMasternodeBlocks.Values
      ensures Valid() && fresh(mapMasternodeBlocks.Values - old(mapMasternodeBlocks.Values))
      ensures added <==> known && hash !in old(seenVotes)
      ensures seenVotes == if added then old(seenVotes) + {hash} else old(seenVotes)
      ensures TableAt(height) == if added then AddVotes(old(TableAt(height)), tier, script, 1) else old(TableAt(height))
      ensures forall h | h != height :: TableAt(h) == old(TableAt(h))
    {
      if !known || hash in seenVotes {
        return false;
      }
      seenVotes := seenVotes + {hash};
      if height !in mapMasternodeBlocks {
        var blockPayees := new BlockPayees(height);
        mapMasternodeBlocks := mapMasternodeBlocks[height := blockPayees];
      }
      AddKeepsDistinct(mapMasternodeBlocks[height].vecPayments, Vote(tier, script, 1));
      mapMasternodeBlocks[height].AddPayee(tier, script, 1);
      return true;
    }

    method GetBlockPayee(height: int, tier: nat) returns (payee: Option<Script>)
      requires Valid()
      ensures IsPayee(TableAt(height), tier, None, payee)
      ensures forall h :: TableAt(h) == old(TableAt(h))
    {
      if height !in mapMasternodeBlocks {
        assert IsBest([], tier, 0, None);
        return None;
      }
      payee := mapMasternodeBlocks[height].GetPayee(tier);
    }

    /** Without votes for the height any transaction will do. */
    method IsTransactionValid(vout: seq<TxOut>, height: int) returns (ok: bool)
      requires Valid()
      ensures ok <==> Accepts(TableAt(height), Required(rewards, height), vout)
      ensures forall h :: TableAt(h) == old(TableAt(h))
    {
      if height in mapMasternodeBlocks {
        ok := mapMasternodeBlocks[height].IsTransactionValid(Required(rewards, height), vout);
      } else {
        ok := true;
      }
    }

    /** The payments of a block on top of one at the given height; `turn` gives the masternode next in turn, tier by tier. */
    method FillBlockPayee(vout: seq<TxOut>, height: int, proofOfStake: bool, turn: nat -> Option<Script>)
      returns (out: seq<TxOut>, ghost mn: Option<Script>, ghost sn: Option<Script>)
      requires Valid() && vout != []
      ensures IsPayee(TableAt(height + 1), MASTERNODE, turn(MASTERNODE), mn)
      ensures IsPayee(TableAt(height + 1), SUPERNODE, turn(SUPERNODE), sn)
      ensures out == Fill(rewards, height, vout, proofOfStake, mn, sn)
      ensures forall h :: TableAt(h) == old(TableAt(h))
    {
      var mnPayee := PayeeFor(height + 1, MASTERNODE, turn(MASTERNODE));
      var snPayee := PayeeFor(height + 1, SUPERNODE, turn(SUPERNODE));
      mn, sn := mnPayee, snPayee;
      out := PayOut(vout, height, proofOfStake, mnPayee, snPayee);
    }

    /** The outputs resized and overwritten one by one. */
    method PayOut(vout: seq<TxOut>, height: int, proofOfStake: bool, mnPayee: Option<Script>, snPayee: Option<Script>)
      returns (out: seq<TxOut>)
      requires vout != []
      ensures out == Fill(rewards, height, vout, proofOfStake, mnPayee, snPayee)
      ensures forall h :: TableAt(h) == old(TableAt(h))
    {
      var blockValue := rewards.blockValue(height);
      var mnPayment := rewards.share(height, blockValue, MASTERNODE);
      var snPayment := rewards.share(height, blockValue, SUPERNODE);
      var toSubtract := mnPayment + snPayment;
      out := vout;
      if mnPayee.None? && snPayee.None? && !proofOfStake {
        out := out[0 := out[0].(value := blockValue)];
        return;
      }
      var stakeIndex, mnIndex, snIndex := 0, 1, 2;
      if proofOfStake {
        var i := |out| + 2;
        stakeIndex, mnIndex, snIndex := i - 3, i - 2, i - 1;
        out := Resize(out, i);
      } else {
        out := Resize(out, 3);
      }
      out := out[mnIndex := PaymentOut(mnPayee, mnPayment)];
      out := out[snIndex := PaymentOut(snPayee, snPayment)];
      if proofOfStake {
        out := out[stakeIndex := out[stakeIndex].(value := out[stakeIndex].value - toSubtract)];
      } else {
        out := out[stakeIndex := out[stakeIndex].(value := blockValue - toSubtract)];
      }
    }

    /** The payee voted for, or else the masternode whose turn it is. */
    method PayeeFor(height: int, tier: nat, turn: Option<Script>) returns (payee: Option<Script>)
      requires Valid()
      ensures IsPayee(TableAt(height), tier, turn, payee)
      ensures forall h :: TableAt(h) == old(TableAt(h))
    {
      payee := GetBlockPayee(height, tier);
      ghost var best: Option<nat> :| IsBest(TableAt(height), tier, |TableAt(height)|, best)
                                     && payee == if best.Some? then Some(TableAt(height)[best.value].script) else None;
      if payee.None? {
        payee := turn;
      }
      assert payee == if best.Some? then Some(TableAt(height)[best.value].script) else turn;
    }

    /**
     A validator with the same votes accepts what a producer fills if no tier it owes rises in
     share with the new block; and only then, unless some other output pays a payee by chance.
     */
    method FillAndValidate(vout: seq<TxOut>, height: int, proofOfStake: bool, turn: nat -> Option<Script>) returns (ok: bool)
      requires Valid() && vout != []
      ensures SharesHold(TableAt(height + 1), rewards, height) ==> ok
      ensures PaidOnlyByVote(TableAt(height + 1), vout, turn(MASTERNODE), turn(SUPERNODE)) ==>
                (ok <==> SharesHold(TableAt(height + 1), rewards, height))
    {
      var out, mn, sn := FillBlockPayee(vout, height, proofOfStake, turn);
      FilledIsAccepted(TableAt(height + 1), rewards, height, vout, proofOfStake, turn(MASTERNODE), turn(SUPERNODE), mn, sn);
      ok := IsTransactionValid(out, height + 1);
    }
  }
}
