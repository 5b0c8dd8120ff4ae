/** Block rewards in numbers, where the payments of a block stand, and whom votes bind. */
module PaymentLaws {
  import opened Coins
  import opened Primitives
  import opened Wrappers
  import opened Payments

  // ---------- whom votes bind ----------

  /** A payee with six votes or more, and an output that pays someone with as many in the same tier. */
  predicate PaysTierOf(t: seq<Payee>, required: nat -> int, vout: seq<TxOut>, i: nat)
    requires i < |t|
  {
    exists j, o | 0 <= j < |t| && 0 <= o < |vout| ::
      t[j].votes >= 6 && t[j].tier == t[i].tier && vout[o].script == t[j].script && vout[o].value >= required(t[i].tier)
  }

  /** Six votes bind: a transaction is valid exactly if the tier of every payee that has them is paid. */
  lemma SixVotesBind(t: seq<Payee>, required: nat -> int, vout: seq<TxOut>)
    ensures Accepts(t, required, vout) <==> forall i: nat | i < |t| && t[i].votes >= 6 :: PaysTierOf(t, required, vout, i)
  {
    forall i: nat | i < |t| && t[i].votes >= 6
      ensures PaidFor(t, required, vout, t[i].tier, |t|) <==> PaysTierOf(t, required, vout, i)
    {
      PaidIff(t, required, vout, i);
    }
  }

  lemma PaidIff(t: seq<Payee>, required: nat -> int, vout: seq<TxOut>, i: nat)
    requires i < |t|
    ensures PaidFor(t, required, vout, t[i].tier, |t|) <==> PaysTierOf(t, required, vout, i)
  {
    if PaidFor(t, required, vout, t[i].tier, |t|) {
      var j :| 0 <= j < |t| && Qualified(t[j]) && t[j].tier == t[i].tier && Pays(vout, t[j].script, required(t[i].tier));
      var o :| 0 <= o < |vout| && vout[o].script == t[j].script && vout[o].value >= required(t[i].tier);
    }
    if PaysTierOf(t, required, vout, i) {
      var j, o :| 0 <= j < |t| && 0 <= o < |vout| && t[j].votes >= 6 && t[j].tier == t[i].tier
                  && vout[o].script == t[j].script && vout[o].value >= required(t[i].tier);
      assert Pays(vout, t[j].script, required(t[i].tier));
    }
  }

  /** Five votes bind nobody: without a payee that has six, whatever is paid is valid. */
  lemma FiveVotesBindNobody(t: seq<Payee>, required: nat -> int, vout: seq<TxOut>)
    requires forall i: nat | i < |t| :: t[i].votes <= 5
    ensures Accepts(t, required, vout)
  {
    SixVotesBind(t, required, vout);
  }

  // ---------- where the payments stand ----------

  /** The payment of a tier: all of its share to the payee there is, or an empty output. */
  predicate IsPaymentTo(o: TxOut, payee: Option<Script>, amount: int) {
    match payee
    case Some(script) => o.script == script && o.value == amount
    case None => o.script == [] && o.value == 0
  }

  /** A stake transaction keeps its outputs; both shares come off the last, and go to two more, masternode first. */
  lemma StakeOutputs(r: Rewards, height: int, vout: seq<TxOut>, mn: Option<Script>, sn: Option<Script>)
    requires vout != []
    ensures var out, n := Fill(r, height, vout, true, mn, sn), |vout|;
            var a, b := r.share(height, r.blockValue(height), 1), r.share(height, r.blockValue(height), 2);
            && |out| == n + 2 && out[..n - 1] == vout[..n - 1]
            && out[n - 1].script == vout[n - 1].script && out[n - 1].value + a + b == vout[n - 1].value
            && IsPaymentTo(out[n], mn, a) && IsPaymentTo(out[n + 1], sn, b)
  {
  }

  /** A work transaction has the block value in its first output, less both shares if these follow in two more. */
  lemma WorkOutputs(r: Rewards, height: int, vout: seq<TxOut>, mn: Option<Script>, sn: Option<Script>)
    requires vout != []
    ensures var out, value := Fill(r, height, vout, false, mn, sn), r.blockValue(height);
            var a, b := r.share(height, value, 1), r.share(height, value, 2);
            && out[0].script == vout[0].script
            && if mn == None && sn == None then |out| == |vout| && out[1..] == vout[1..] && out[0].value == value
               else |out| == 3 && out[0].value + a + b == value && IsPaymentTo(out[1], mn, a) && IsPaymentTo(out[2], sn, b)
  {
  }

  // ---------- how much there is ----------

  /** What has been created up to a height. */
  function Issued(height: nat): int {
    if height == 0 then GetBlockValue(0) else Issued(height - 1) + GetBlockValue(height)
  }

  /** In coins: a premine of 2650000, 0.1 a block for 10000 blocks, 10 up to block 262800, 8 and 6 for two years more, then 4. */
  lemma {:induction false} IssuedIs(height: nat)
    ensures height <= 10000 ==> 10 * Issued(height) == (26500000 + height) * COIN
    ensures 10000 <= height <= 262800 ==> Issued(height) == (2651000 + 10 * (height - 10000)) * COIN
    ensures 262800 <= height <= 525600 ==> Issued(height) == (5179000 + 8 * (height - 262800)) * COIN
    ensures 525600 <= height <= 788400 ==> Issued(height) == (7281400 + 6 * (height - 525600)) * COIN
    ensures 788400 <= height ==> Issued(height) == (8858200 + 4 * (height - 788400)) * COIN
  {
    if height > 0 {
      IssuedIs(height - 1);
    }
  }

  /** Two tenths of every block but the first are the staker's, and four tenths each tier's. */
  lemma TiersShareAlike(height: int, tier: nat)
    ensures var share := Share(ActualRewards, height, tier);
            if height == 0 then share == 0
            else 10 * share == 4 * GetBlockValue(height)
  {
  }
}
