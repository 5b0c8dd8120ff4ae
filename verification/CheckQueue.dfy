/** The check queue as a monitor: a method for each stretch of Loop that runs with the mutex held. */
module CheckQueue {
  import opened Wrappers
  import opened CheckQueueModel

  /** How a critical section ends. */
  datatype Outcome = Return(verdict: bool) | Block | Took(nNow: nat, checks: seq<Check>, ok: bool)

  class CheckQueue {
    var queue: seq<Check>
    var nIdle: int
    var nTotal: int
    var fAllOk: bool
    var nTodo: int
    const fQuit: bool
    const nBatchSize: nat
    ghost var threads: seq<Phase>
    ghost var masterNotified: bool
    ghost var added: seq<Check>
    ghost var verdict: Option<bool>

    ghost function Model(): State
      reads this
    {
      State(queue, nIdle, nTotal, fAllOk, nTodo, fQuit, nBatchSize, threads, masterNotified, added, verdict)
    }

    constructor (nBatchSize: nat, ghost threads: nat, ghost passes: Check -> bool)
      requires threads > 0
      ensures Model() == Initial(nBatchSize, threads) && Inv(passes, Model())
      ensures this.nBatchSize == nBatchSize && !fQuit && fAllOk && queue == [] && nTodo == 0
    {
      queue, nIdle, nTotal, fAllOk, nTodo, fQuit, this.nBatchSize := [], 0, 0, true, 0, false, nBatchSize;
      this.threads, masterNotified, added, verdict := seq(threads, _ => Outside), false, [], None;
      new;
      InitialIsOk(passes, nBatchSize, threads);
    }

    /** Checks are taken off the back one by one. */
    method TakeBatch(nNow: nat) returns (checks: seq<Check>)
      requires nNow <= |queue|
      modifies this`queue
      ensures queue == old(queue)[..|old(queue)| - nNow]
      ensures checks == Reversed(old(queue)[|old(queue)| - nNow..])
    {
      checks := [];
      ghost var q := queue;
      for i := 0 to nNow
        invariant queue == q[..|q| - i]
        invariant checks == Reversed(q[|q| - i..])
      {
        ReversedGrows(queue[|queue| - 1], q[|q| - i..]);
        assert q[|q| - i - 1..] == [queue[|queue| - 1]] + q[|q| - i..];
        checks := checks + [queue[|queue| - 1]];
        queue := queue[..|queue| - 1];
      }
    }

    /** The inner while loop and what follows it, up to the end of the critical section. */
    method Look(t: nat, fMaster: bool) returns (r: Outcome)
      requires fMaster <==> t == 0
      requires t < |threads| && Sane(Model()) && verdict == None
      modifies this
      ensures Model() == Examine(old(Model()), t)
      ensures match r
              case Return(v) => threads[t] == Outside && v == old(fAllOk) && (fMaster ==> verdict == Some(v))
              case Block => threads[t] == Waiting
              case Took(nNow, checks, ok) => threads[t] == Running(checks, nNow, ok)
    {
      if queue == [] {
        if (fMaster || fQuit) && nTodo == 0 {
          nTotal := nTotal - 1;
          var fRet := fAllOk;
          threads := threads[t := Outside];
          if fMaster {
            fAllOk := true;
            added, verdict := [], Some(fRet);
          }
          return Return(fRet);
        }
        nIdle := nIdle + 1;
        threads := threads[t := Waiting];
        return Block;
      }
      var nNow := BatchSizeNow();
      var checks := TakeBatch(nNow);
      threads := threads[t := Running(checks, nNow, fAllOk)];
      r := Took(nNow, checks, fAllOk);
    }

    /** At least one, at most the configured size, and fewer the more threads may help. */
    method BatchSizeNow() returns (nNow: nat)
      requires Sane(Model()) && queue != []
      ensures nNow == BatchOf(Model()) && Model() == old(Model())
      ensures nNow == 1 || (nNow <= nBatchSize && nNow * (nTotal + nIdle + 1) <= |queue|)
    {
      BatchIs(Model(), 0);
      nNow := |queue| / (nTotal + nIdle + 1);
      if nBatchSize < nNow {
        nNow := nBatchSize;
      }
      if nNow < 1 {
        nNow := 1;
      }
    }

    /** The first critical section of a thread. */
    method BeginLoop(t: nat, fMaster: bool, ghost passes: Check -> bool) returns (r: Outcome)
      requires (fMaster <==> t == 0) && Inv(passes, Model()) && Enabled(Model(), Enter(t))
      modifies this
      ensures Model() == Step(passes, old(Model()), Enter(t)) && Inv(passes, Model())
      ensures fMaster && r.Return? ==> (r.verdict <==> AllPass(passes, old(added))) && CheckQueueModel.IsIdle(Model())
    {
      ghost var s := Model();
      StepInHalves(passes, s, Enter(t));
      hide Inv, Step, Examine, AllPass;
      nTotal := nTotal + 1;
      verdict := None;
      assert Model() == Before(s, Enter(t));
      hide Before, Enabled;
      r := Look(t, fMaster);
      if fMaster && r.Return? {
        MasterGetsTheVerdict(passes, s, Enter(t));
      }
    }

    /** From waking up on the condition variable. */
    method Resume(t: nat, fMaster: bool, ghost passes: Check -> bool) returns (r: Outcome)
      requires (fMaster <==> t == 0) && Inv(passes, Model()) && Enabled(Model(), Wake(t))
      modifies this
      ensures Model() == Step(passes, old(Model()), Wake(t)) && Inv(passes, Model())
      ensures fMaster && r.Return? ==> (r.verdict <==> AllPass(passes, old(added))) && CheckQueueModel.IsIdle(Model())
    {
      ghost var s := Model();
      StepInHalves(passes, s, Wake(t));
      hide Inv, Step, Examine, AllPass;
      nIdle := nIdle - 1;
      verdict := None;
      if fMaster {
        masterNotified := false;
      }
      assert Model() == Before(s, Wake(t));
      hide Before, Enabled;
      r := Look(t, fMaster);
      if fMaster && r.Return? {
        MasterGetsTheVerdict(passes, s, Wake(t));
      }
    }

    method CleanUp(t: nat, fMaster: bool, nNow: nat, fOk: bool)
      requires (fMaster <==> t == 0) && Enabled(Model(), Finish(t)) && threads[t] == Running([], nNow, fOk)
      modifies this`fAllOk, this`nTodo, this`masterNotified, this`verdict
      ensures Model() == Before(old(Model()), Finish(t))
    {
      fAllOk := fAllOk && fOk;
      nTodo := nTodo - nNow;
      verdict := None;
      if nTodo == 0 && !fMaster {
        masterNotified := masterNotified || threads[0].Waiting?;
      }
    }

    /** The clean-up of the previous round and the next look at the queue. */
    method HandIn(t: nat, fMaster: bool, nNow: nat, fOk: bool, ghost passes: Check -> bool) returns (r: Outcome)
      requires (fMaster <==> t == 0) && Inv(passes, Model()) && Enabled(Model(), Finish(t))
      requires threads[t] == Running([], nNow, fOk)
      modifies this
      ensures Model() == Step(passes, old(Model()), Finish(t)) && Inv(passes, Model())
      ensures fMaster && r.Return? ==> (r.verdict <==> AllPass(passes, old(added))) && CheckQueueModel.IsIdle(Model())
    {
      ghost var s := Model();
      StepInHalves(passes, s, Finish(t));
      hide Inv, Step, Examine, AllPass;
      hide Before, Enabled;
      CleanUp(t, fMaster, nNow, fOk);
      r := Look(t, fMaster);
      if fMaster && r.Return? {
        MasterGetsTheVerdict(passes, s, Finish(t));
      }
    }

    method Add(checks: seq<Check>, ghost passes: Check -> bool)
      requires Inv(passes, Model()) && Enabled(Model(), CheckQueueModel.Add(checks))
      modifies this
      ensures Model() == Step(passes, old(Model()), CheckQueueModel.Add(checks)) && Inv(passes, Model())
    {
      StepKeeps(passes, Model(), CheckQueueModel.Add(checks));
      var i := 0;
      ghost var q := queue;
      assert q + checks[..0] == q && checks[..|checks|] == checks;
      while i < |checks|
        invariant i <= |checks| && queue == q + checks[..i]
        modifies this`queue
      {
        queue := queue + [checks[i]];
        i := i + 1;
      }
      nTodo := nTodo + |checks|;
      added, verdict := added + checks, None;
    }

    method IsIdle() returns (idle: bool)
      ensures idle == CheckQueueModel.IsIdle(Model())
    {
      idle := nTotal == nIdle && nTodo == 0 && fAllOk;
    }
  }

  lemma {:induction false} ReversedGrows(x: Check, xs: seq<Check>)
    ensures Reversed([x] + xs) == Reversed(xs) + [x]
  {
    if xs == [] {
      assert [x] + xs == [x];
    } else {
      ReversedGrows(x, xs[..|xs| - 1]);
      assert ([x] + xs)[..|xs|] == [x] + xs[..|xs| - 1];
    }
  }

  /** The unlocked part of a round: look no further once a check has failed. */
  method RunBatch(passes: Check -> bool, checks: seq<Check>, ok: bool) returns (fOk: bool)
    ensures fOk <==> ok && AllPass(passes, checks)
  {
    fOk := ok;
    for i := 0 to |checks|
      invariant fOk <==> ok && AllPass(passes, checks[..i])
    {
      assert checks[..i + 1] == checks[..i] + [checks[i]];
      SplitPasses(passes, checks[..i], [checks[i]]);
      if fOk {
        fOk := passes(checks[i]);
      }
    }
    assert checks[..|checks|] == checks;
  }
}
