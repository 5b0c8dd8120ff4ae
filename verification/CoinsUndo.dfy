/** Spending an output, and putting it back when the block is disconnected. */
module CoinsUndo {
  import opened Coins
  import opened Primitives
  import opened Wrappers

  /** The output spent and, if it was the last, what else the record said. */
  datatype Undo = Undo(txout: TxOut, coinBase: bool, coinStake: bool, height: int, version: int)

  predicate IsUnspent(c: Coins, n: nat) { n < |c.vout| && !c.vout[n].IsNull() }

  function Spent(c: Coins, n: nat): Coins
    requires n < |c.vout|
  {
    c.(vout := c.vout[n := NULL_OUT]).Tidy()
  }

  function UndoOf(c: Coins, n: nat): Undo
    requires n < |c.vout|
  {
    if Spent(c, n).vout == [] then Undo(c.vout[n], c.coinBase, c.coinStake, c.height, c.version)
    else Undo(c.vout[n], false, false, 0, 0)
  }

  datatype Restored = Restored(coins: Coins, clean: bool)

  function Extend(vout: seq<TxOut>, n: nat): (r: seq<TxOut>)
    ensures |r| >= n && |r| >= |vout|
  {
    if |vout| < n then Resize(vout, n) else vout
  }

  /** An output that exists, is unspent, and is not a mint. */
  predicate IsAvailable(isMint: seq<Byte> -> bool, c: Coins, n: nat) {
    IsUnspent(c, n) && !isMint(c.vout[n].script)
  }

  /** The inner loop of DisconnectBlock for one input; coinStake is cleared but not set again. */
  function Restore(isMint: seq<Byte> -> bool, c: Coins, n: nat, u: Undo): Restored {
    var emptied := if u.height != 0 then Coins(u.coinBase, false, [], u.height, u.version) else c;
    var clean := (if u.height != 0 then c.IsPruned() else !c.IsPruned()) && !IsAvailable(isMint, emptied, n);
    Restored(emptied.(vout := Extend(emptied.vout, n + 1)[n := u.txout]), clean)
  }

  /** No other output of the record is unspent. */
  predicate IsLast(c: Coins, n: nat) {
    forall i | 0 <= i < |c.vout| && i != n :: c.vout[i].IsNull()
  }

  lemma SpentShape(c: Coins, n: nat)
    requires IsUnspent(c, n)
    ensures var s := Spent(c, n);
            && |s.vout| <= |c.vout| && s.IsTidy() && (s.IsPruned() <==> s.vout == [])
            && (forall i | 0 <= i < |s.vout| && i != n :: s.vout[i] == c.vout[i])
            && (forall i | |s.vout| <= i < |c.vout| && i != n :: c.vout[i].IsNull())
            && (n < |s.vout| ==> s.vout[n] == NULL_OUT)
            && (s.vout == [] <==> IsLast(c, n))
  {
    var marked := c.(vout := c.vout[n := NULL_OUT]);
    CleanupDropsExactlyTheNullTail(marked);
    var s := Spent(c, n);
    assert forall i | 0 <= i < |s.vout| :: s.vout[i] == marked.vout[i];
    assert forall i | |s.vout| <= i < |c.vout| && i != n :: marked.vout[i] == c.vout[i] && marked.vout[i].IsNull();
    if s.vout != [] {
      var last := |s.vout| - 1;
      assert !s.vout[last].IsNull() && last != n && s.vout[last] == c.vout[last];
    }
  }

  /** Restoring puts the output back where it was, with spent outputs up to it. */
  lemma RestoredOutputs(c: Coins, n: nat, vout: seq<TxOut>)
    requires IsUnspent(c, n) && c.IsTidy() && Canonical(c.vout) && vout == Spent(c, n).vout
    ensures Extend(vout, n + 1)[n := c.vout[n]] == c.vout
  {
    SpentShape(c, n);
    var r := Extend(vout, n + 1)[n := c.vout[n]];
    assert |r| == |c.vout|;
  }

  /**
   Undoing a spend: for a tidy record and an unspent output, restoring it - from the record left
   behind or, once that is pruned, from an empty one - is clean and gives the record back exactly
   when the output was not the last one, or the height is not zero and the record is not a
   coinstake's.
   */
  lemma UndoRestores(isMint: seq<Byte> -> bool, c: Coins, n: nat, left: Coins)
    requires IsUnspent(c, n) && c.IsTidy() && Canonical(c.vout)
    requires left == Spent(c, n) || (Spent(c, n).IsPruned() && left.IsPruned())
    ensures var r := Restore(isMint, left, n, UndoOf(c, n));
            && (r.clean <==> !IsLast(c, n) || c.height != 0)
            && (r.clean && r.coins == c <==> !IsLast(c, n) || (c.height != 0 && !c.coinStake))
  {
    SpentShape(c, n);
    RestoredOutputs(c, n, Spent(c, n).vout);
    hide Spent, Extend;
    var r := Restore(isMint, left, n, UndoOf(c, n));
    if IsLast(c, n) {
      assert c.height != 0 ==> r.coins.vout == c.vout;
    }
  }

  /** Putting back the only output of a coinstake loses the mark. */
  lemma CoinStakeIsForgotten(isMint: seq<Byte> -> bool)
    ensures var c := Coins(false, true, [TxOut(5, [])], 7, 1);
            var r := Restore(isMint, Spent(c, 0), 0, UndoOf(c, 0));
            r.clean && r.coins == c.(coinStake := false) && r.coins != c
  {
    var c := Coins(false, true, [TxOut(5, [])], 7, 1);
    SpentShape(c, 0);
    RestoredOutputs(c, 0, Spent(c, 0).vout);
  }
}
