/** The per-transaction record of unspent outputs (CCoins). */
module Coins {
  import opened Primitives

  type Txid = Hash

  /** A transaction output; nRounds is neither compared here nor serialized by the original. */
  datatype TxOut = TxOut(value: int, script: seq<Byte>) {
    predicate IsNull() { value == -1 }
  }

  /** What SetNull leaves behind. */
  const NULL_OUT := TxOut(-1, [])

  datatype Coins = Coins(coinBase: bool, coinStake: bool, vout: seq<TxOut>, height: int, version: int) {
    /** No output is left unspent. */
    predicate IsPruned() {
      forall i | 0 <= i < |vout| :: vout[i].IsNull()
    }

    /** The last output, if there is one, is unspent: what Cleanup establishes. */
    predicate IsTidy() {
      vout == [] || !vout[|vout| - 1].IsNull()
    }

    function Tidy(): Coins {
      this.(vout := DropNullTail(vout))
    }
  }

  const EMPTY_COINS := Coins(false, false, [], 0, 0)

  /** Cut off, or filled up with outputs as a new one is. */
  function Resize(vout: seq<TxOut>, n: nat): (r: seq<TxOut>)
    ensures |r| == n && forall i | 0 <= i < n && i < |vout| :: r[i] == vout[i]
  {
    seq(n, i requires 0 <= i < n => if i < |vout| then vout[i] else NULL_OUT)
  }

  /** Spent outputs are as SetNull leaves them. */
  predicate Canonical(vout: seq<TxOut>) {
    forall i | 0 <= i < |vout| && vout[i].IsNull() :: vout[i] == NULL_OUT
  }

  function DropNullTail(vout: seq<TxOut>): seq<TxOut> {
    if vout == [] || !vout[|vout| - 1].IsNull() then vout else DropNullTail(vout[..|vout| - 1])
  }

  /** Cleanup is the unique way to drop spent outputs from the end and nothing else. */
  lemma {:induction false} CleanupDropsExactlyTheNullTail(c: Coins)
    ensures c.Tidy().IsTidy()
    ensures c.Tidy().vout <= c.vout
    ensures forall i | |c.Tidy().vout| <= i < |c.vout| :: c.vout[i].IsNull()
    ensures c.IsPruned() <==> c.Tidy().vout == []
    ensures c.IsTidy() ==> c.Tidy() == c
    decreases |c.vout|
  {
    if c.vout != [] && c.vout[|c.vout| - 1].IsNull() {
      CleanupDropsExactlyTheNullTail(c.(vout := c.vout[..|c.vout| - 1]));
    }
  }
}
