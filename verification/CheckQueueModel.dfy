/** The parallel check queue as a state machine: one step for each critical section or check executed. */
module CheckQueueModel {
  import opened Arithmetic
  import opened Wrappers

  // Thread 0 is the master. A waiting thread may wake at any time, notified or not.

  type Check = nat

  datatype Phase =
    | Outside                                         // not in Loop
    | Waiting                                         // blocked on its condition variable
    | Running(todo: seq<Check>, n: nat, ok: bool)     // n checks taken, todo of them not yet looked at

  /** `added` are the checks added since the master last returned; `verdict` is what it returned. */
  datatype State = State(
    queue: seq<Check>, nIdle: int, nTotal: int, allOk: bool, nTodo: int, quit: bool, batchSize: nat,
    threads: seq<Phase>, masterNotified: bool, added: seq<Check>, verdict: Option<bool>)

  function Initial(batchSize: nat, threads: nat): State
    requires threads > 0
  {
    State([], 0, 0, true, 0, false, batchSize, seq(threads, _ => Outside), false, [], None)
  }

  predicate AllPass(passes: Check -> bool, checks: seq<Check>) {
    forall i | 0 <= i < |checks| :: passes(checks[i])
  }

  function Max(a: nat, b: nat): nat { if a < b then b else a }

  /** How many checks a thread takes at once. */
  function BatchOf(s: State): (n: nat)
    requires s.nTotal + s.nIdle >= 0 && s.queue != []
    ensures 1 <= n <= |s.queue|
  {
    Max(1, Min(s.batchSize, |s.queue| / (s.nTotal + s.nIdle + 1)))
  }

  function Reversed(xs: seq<Check>): (r: seq<Check>)
    ensures |r| == |xs|
  {
    if xs == [] then [] else [xs[|xs| - 1]] + Reversed(xs[..|xs| - 1])
  }

  lemma {:induction false} ReversedAt(xs: seq<Check>, k: nat)
    requires k < |xs|
    ensures Reversed(xs)[k] == xs[|xs| - 1 - k]
  {
    if k > 0 {
      ReversedAt(xs[..|xs| - 1], k - 1);
    }
  }

  /** A batch is one check, or the most that is within the configured size and one share among the threads, the idle counted twice, and one. */
  lemma BatchIs(s: State, m: nat)
    requires s.nTotal + s.nIdle >= 0 && s.queue != []
    ensures var n, share := BatchOf(s), s.nTotal + s.nIdle + 1;
            && (n == 1 || (n <= s.batchSize && n * share <= |s.queue|))
            && (m > n ==> m > s.batchSize || m * share > |s.queue|)
  {
    var n, share := BatchOf(s), s.nTotal + s.nIdle + 1;
    if n > 1 {
      DivAbove(|s.queue|, share, n - 1);
      assert (n - 1) * share + share == n * share;
    }
    if m > n && m <= s.batchSize {
      DivAbove(|s.queue|, share, m - 1);
      assert (m - 1) * share + share == m * share;
    }
  }

  /** With more threads, or more of them idle, no batch is larger. */
  lemma BatchShrinks(s: State, s': State)
    requires 0 <= s.nTotal + s.nIdle <= s'.nTotal + s'.nIdle && s.queue == s'.queue != [] && s.batchSize == s'.batchSize
    ensures BatchOf(s') <= BatchOf(s)
  {
    var n, share, share' := BatchOf(s'), s.nTotal + s.nIdle + 1, s'.nTotal + s'.nIdle + 1;
    BatchIs(s', 0);
    BatchIs(s, n);
    MulGrows(n, n, share, share');
  }

  predicate Sane(s: State) {
    s.threads != [] && s.nTotal + s.nIdle >= 0
  }

  /** From the test of the queue on: leave, wait, or take a batch from the back. */
  function Examine(s: State, t: nat): State
    requires t < |s.threads| && Sane(s)
  {
    if s.queue == [] then
      if (t == 0 || s.quit) && s.nTodo == 0 then
        var left := s.(nTotal := s.nTotal - 1, threads := s.threads[t := Outside]);
        if t == 0 then left.(allOk := true, added := [], verdict := Some(s.allOk)) else left
      else
        s.(nIdle := s.nIdle + 1, threads := s.threads[t := Waiting])
    else
      var n := BatchOf(s);
      s.(queue := s.queue[..|s.queue| - n],
         threads := s.threads[t := Running(Reversed(s.queue[|s.queue| - n..]), n, s.allOk)])
  }

  /** The checks of a batch are those at the back of the queue, the last of them first. */
  lemma TakenFromTheBack(s: State, t: nat, k: nat)
    requires t < |s.threads| && Sane(s) && s.queue != []
    ensures var p, q := Examine(s, t).threads[t], Examine(s, t).queue;
            && p.Running? && p.n == |p.todo| == BatchOf(s) && p.ok == s.allOk && q == s.queue[..|s.queue| - p.n]
            && (k < p.n ==> p.todo[k] == s.queue[|s.queue| - 1 - k])
  {
    var n := BatchOf(s);
    if k < n {
      ReversedAt(s.queue[|s.queue| - n..], k);
    }
  }

  /** A thread leaves only with nothing queued or under way, and a worker only when told to quit; otherwise it waits for work. */
  lemma LeavesIff(s: State, t: nat)
    requires t < |s.threads| && Sane(s)
    ensures var s' := Examine(s, t);
            && (s'.threads[t].Outside? <==> s.queue == [] && s.nTodo == 0 && (t == 0 || s.quit))
            && (s'.threads[t].Waiting? <==> s.queue == [] && !(s.nTodo == 0 && (t == 0 || s.quit)))
            && s'.nTotal == s.nTotal - (if s'.threads[t].Outside? then 1 else 0)
            && s'.nIdle == s.nIdle + (if s'.threads[t].Waiting? then 1 else 0)
            && s'.nTodo == s.nTodo && forall u | 0 <= u < |s.threads| && u != t :: s'.threads[u] == s.threads[u]
  {
    hide BatchOf, Reversed;
  }

  datatype Op =
    | Enter(t: nat)              // start of Loop
    | Wake(t: nat)               // return from the wait
    | Execute(t: nat)            // one check, outside the mutex
    | Finish(t: nat)             // the batch is done: account for it and look at the queue again
    | Add(checks: seq<Check>)    // by the master, outside Loop

  predicate Enabled(s: State, op: Op) {
    && s.threads != []
    && match op
       case Enter(t) => t < |s.threads| && s.threads[t].Outside?
       case Wake(t) => t < |s.threads| && s.threads[t].Waiting?
       case Execute(t) => t < |s.threads| && s.threads[t].Running? && s.threads[t].todo != []
       case Finish(t) => t < |s.threads| && s.threads[t].Running? && s.threads[t].todo == []
       case Add(_) => s.threads[0].Outside?
  }

  /** What the thread does with the mutex held before it looks at the queue. */
  function Before(s: State, op: Op): State
    requires Enabled(s, op) && !op.Execute? && !op.Add?
  {
    match op
    case Enter(t) => s.(nTotal := s.nTotal + 1, verdict := None)
    case Wake(t) => s.(nIdle := s.nIdle - 1, verdict := None, masterNotified := if t == 0 then false else s.masterNotified)
    case Finish(t) =>
      var p := s.threads[t];
      var nTodo := s.nTodo - p.n;
      s.(allOk := s.allOk && p.ok, nTodo := nTodo, verdict := None,
         masterNotified := s.masterNotified || (nTodo == 0 && t != 0 && MasterWaits(s)))
  }

  function Step(passes: Check -> bool, s: State, op: Op): State
    requires Enabled(s, op) && Inv(passes, s)
  {
    match op
    case Execute(t) =>
      var p := s.threads[t];
      s.(threads := s.threads[t := Running(p.todo[1..], p.n, if p.ok then passes(p.todo[0]) else p.ok)], verdict := None)
    case Add(checks) =>
      s.(queue := s.queue + checks, nTodo := s.nTodo + |checks|, added := s.added + checks, verdict := None)
    case _ =>
      BeforeIsBusy(passes, s, op);
      BusyIsSane(passes, Before(s, op), op.t);
      Examine(Before(s, op), op.t)
  }

  // ---------- counting threads ----------

  function Outstanding(ts: seq<Phase>): nat {
    if ts == [] then 0 else Outstanding(ts[..|ts| - 1]) + Held(ts[|ts| - 1])
  }

  function Held(p: Phase): nat { if p.Running? then p.n else 0 }

  function Idle(ts: seq<Phase>): nat {
    if ts == [] then 0 else Idle(ts[..|ts| - 1]) + (if ts[|ts| - 1].Waiting? then 1 else 0)
  }

  function Inside(ts: seq<Phase>): nat {
    if ts == [] then 0 else Inside(ts[..|ts| - 1]) + (if ts[|ts| - 1].Outside? then 0 else 1)
  }

  lemma {:induction false} CountsAfter(ts: seq<Phase>, t: nat, p: Phase)
    requires t < |ts|
    ensures Outstanding(ts[t := p]) == Outstanding(ts) - Held(ts[t]) + Held(p)
    ensures Idle(ts[t := p]) == Idle(ts) - (if ts[t].Waiting? then 1 else 0) + (if p.Waiting? then 1 else 0)
    ensures Inside(ts[t := p]) == Inside(ts) - (if ts[t].Outside? then 0 else 1) + (if p.Outside? then 0 else 1)
  {
    var last := |ts| - 1;
    if t < last {
      CountsAfter(ts[..last], t, p);
      assert ts[t := p][..last] == ts[..last][t := p];
    } else {
      assert ts[t := p][..last] == ts[..last];
    }
  }

  lemma {:induction false} HeldIsOutstanding(ts: seq<Phase>, t: nat)
    requires t < |ts|
    ensures Held(ts[t]) <= Outstanding(ts)
  {
    if t < |ts| - 1 {
      HeldIsOutstanding(ts[..|ts| - 1], t);
    }
  }

  lemma {:induction false} SomebodyHolds(ts: seq<Phase>) returns (t: nat)
    requires Outstanding(ts) > 0
    ensures t < |ts| && ts[t].Running? && ts[t].n > 0
  {
    if Held(ts[|ts| - 1]) > 0 {
      t := |ts| - 1;
    } else {
      t := SomebodyHolds(ts[..|ts| - 1]);
    }
  }

  lemma {:induction false} NobodyInside(n: nat)
    ensures var ts := seq(n, _ => Outside); Outstanding(ts) == 0 && Idle(ts) == 0 && Inside(ts) == 0
  {
    if n > 0 {
      NobodyInside(n - 1);
      assert seq(n, _ => Outside)[..n - 1] == seq(n - 1, _ => Outside);
    }
  }

  // ---------- the invariant ----------

  /** What a thread still has to contribute to the verdict is good. */
  predicate Clean(passes: Check -> bool, p: Phase) {
    p.Running? ==> p.ok && AllPass(passes, p.todo)
  }

  ghost predicate AllClean(passes: Check -> bool, ts: seq<Phase>) {
    forall t | 0 <= t < |ts| :: Clean(passes, ts[t])
  }

  ghost predicate Counted(s: State) {
    && s.nTodo == |s.queue| + Outstanding(s.threads)
    && s.nIdle == Idle(s.threads)
    && s.nTotal == Inside(s.threads)
    && s.nTodo <= |s.added|
  }

  /** Skipping checks once one has failed does not change the conjunction of them all. */
  ghost predicate VerdictKept(passes: Check -> bool, s: State) {
    AllPass(passes, s.added) <==> s.allOk && AllPass(passes, s.queue) && AllClean(passes, s.threads)
  }

  predicate MasterWaits(s: State) { s.threads != [] && s.threads[0].Waiting? }

  /** A notification is under way exactly when the master waits for nothing any more. */
  ghost predicate MasterSafe(s: State) {
    && (MasterWaits(s) ==> s.queue == [])
    && (s.masterNotified <==> MasterWaits(s) && s.nTodo == 0)
  }

  ghost predicate Inv(passes: Check -> bool, s: State) {
    && s.threads != []
    && Counted(s)
    && (forall t | 0 <= t < |s.threads| && s.threads[t].Running? :: s.threads[t].n >= 1)
    && VerdictKept(passes, s)
    && MasterSafe(s)
  }

  lemma {:induction false} ReversedPasses(passes: Check -> bool, xs: seq<Check>)
    ensures AllPass(passes, Reversed(xs)) <==> AllPass(passes, xs)
  {
    if xs != [] {
      var init := xs[..|xs| - 1];
      ReversedPasses(passes, init);
      SplitPasses(passes, init, [xs[|xs| - 1]]);
      SplitPasses(passes, [xs[|xs| - 1]], Reversed(init));
      assert xs == init + [xs[|xs| - 1]];
    }
  }

  lemma SplitPasses(passes: Check -> bool, a: seq<Check>, b: seq<Check>)
    ensures AllPass(passes, a + b) <==> AllPass(passes, a) && AllPass(passes, b)
  {
    if AllPass(passes, a + b) {
      assert forall i | 0 <= i < |a| :: (a + b)[i] == a[i];
      assert forall i | 0 <= i < |b| :: (a + b)[|a| + i] == b[i];
    }
  }

  ghost predicate OthersClean(passes: Check -> bool, ts: seq<Phase>, t: nat) {
    forall u | 0 <= u < |ts| && u != t :: Clean(passes, ts[u])
  }

  lemma CleanAfter(passes: Check -> bool, ts: seq<Phase>, t: nat, p: Phase)
    requires t < |ts|
    ensures AllClean(passes, ts[t := p]) <==> Clean(passes, p) && OthersClean(passes, ts, t)
    ensures AllClean(passes, ts) <==> Clean(passes, ts[t]) && OthersClean(passes, ts, t)
  {
    if AllClean(passes, ts[t := p]) {
      forall u | 0 <= u < |ts| && u != t ensures Clean(passes, ts[u]) {
        assert Clean(passes, ts[t := p][u]);
      }
      assert Clean(passes, ts[t := p][t]);
    }
  }

  // ---------- every step keeps the invariant ----------

  /** The invariant while thread t is inside the mutex: it is counted as inside but neither waiting nor holding. */
  ghost predicate Busy(passes: Check -> bool, s: State, t: nat) {
    && t < |s.threads|
    && s.nTodo == |s.queue| + Outstanding(s.threads) - Held(s.threads[t])
    && s.nIdle == Idle(s.threads) - (if s.threads[t].Waiting? then 1 else 0)
    && s.nTotal == Inside(s.threads) + (if s.threads[t].Outside? then 1 else 0)
    && s.nTodo <= |s.added|
    && (forall u | 0 <= u < |s.threads| && u != t && s.threads[u].Running? :: s.threads[u].n >= 1)
    && (AllPass(passes, s.added) <==> s.allOk && AllPass(passes, s.queue) && OthersClean(passes, s.threads, t))
    && (if t == 0 then !s.masterNotified else MasterSafe(s))
  }

  lemma BusyIsSane(passes: Check -> bool, s: State, t: nat)
    requires Busy(passes, s, t)
    ensures Sane(s)
  {
    CountsAfter(s.threads, t, Outside);
  }

  lemma NobodyHoldsNobodyRuns(passes: Check -> bool, ts: seq<Phase>, t: nat)
    requires t < |ts| && Outstanding(ts) == Held(ts[t])
    requires forall u | 0 <= u < |ts| && u != t && ts[u].Running? :: ts[u].n >= 1
    ensures OthersClean(passes, ts, t)
  {
    forall u | 0 <= u < |ts| && u != t ensures Clean(passes, ts[u]) {
      CountsAfter(ts, t, Outside);
      HeldIsOutstanding(ts[t := Outside], u);
    }
  }

  lemma GrabKeeps(passes: Check -> bool, s: State, t: nat)
    requires Busy(passes, s, t) && s.queue != []
    ensures Sane(s) && Inv(passes, Examine(s, t))
  {
    BusyIsSane(passes, s, t);
    var n := BatchOf(s);
    var rest, batch := s.queue[..|s.queue| - n], s.queue[|s.queue| - n..];
    assert s.queue == rest + batch;
    SplitPasses(passes, rest, batch);
    ReversedPasses(passes, batch);
    var p := Running(Reversed(batch), n, s.allOk);
    CountsAfter(s.threads, t, p);
    CleanAfter(passes, s.threads, t, p);
  }

  lemma WaitKeeps(passes: Check -> bool, s: State, t: nat)
    requires Busy(passes, s, t) && s.queue == [] && !((t == 0 || s.quit) && s.nTodo == 0)
    ensures Sane(s) && Inv(passes, Examine(s, t))
  {
    BusyIsSane(passes, s, t);
    CountsAfter(s.threads, t, Waiting);
    CleanAfter(passes, s.threads, t, Waiting);
  }

  /** Whoever leaves, nothing is left to do. */
  lemma LeaveKeeps(passes: Check -> bool, s: State, t: nat)
    requires Busy(passes, s, t) && s.queue == [] && (t == 0 || s.quit) && s.nTodo == 0
    ensures Sane(s) && Inv(passes, Examine(s, t))
    ensures s.allOk <==> AllPass(passes, s.added)
  {
    BusyIsSane(passes, s, t);
    CountsAfter(s.threads, t, Outside);
    CleanAfter(passes, s.threads, t, Outside);
    NobodyHoldsNobodyRuns(passes, s.threads, t);
  }

  lemma ExamineKeeps(passes: Check -> bool, s: State, t: nat)
    requires Busy(passes, s, t)
    ensures Sane(s) && Inv(passes, Examine(s, t))
  {
    if s.queue != [] {
      GrabKeeps(passes, s, t);
    } else if (t == 0 || s.quit) && s.nTodo == 0 {
      LeaveKeeps(passes, s, t);
    } else {
      WaitKeeps(passes, s, t);
    }
  }

  lemma BeforeIsBusy(passes: Check -> bool, s: State, op: Op)
    requires Inv(passes, s) && Enabled(s, op) && !op.Execute? && !op.Add?
    ensures Busy(passes, Before(s, op), op.t)
  {
    hide AllPass, Clean, AllClean, OthersClean;
    CleanAfter(passes, s.threads, op.t, Outside);
    HeldIsOutstanding(s.threads, op.t);
    ToContribute(passes, s.threads[op.t]);
  }

  /** A thread that is not running, or has finished, has contributed what its flag says. */
  lemma ToContribute(passes: Check -> bool, p: Phase)
    ensures !p.Running? ==> Clean(passes, p)
    ensures p.Running? && p.todo == [] ==> (Clean(passes, p) <==> p.ok)
  {
  }

  lemma LooksAtOne(passes: Check -> bool, p: Phase)
    requires p.Running? && p.todo != []
    ensures Clean(passes, Running(p.todo[1..], p.n, if p.ok then passes(p.todo[0]) else p.ok)) <==> Clean(passes, p)
  {
    assert p.todo == [p.todo[0]] + p.todo[1..];
    SplitPasses(passes, [p.todo[0]], p.todo[1..]);
  }

  lemma ExecuteKeeps(passes: Check -> bool, s: State, t: nat)
    requires Inv(passes, s) && Enabled(s, Execute(t))
    ensures Inv(passes, Step(passes, s, Execute(t)))
  {
    var p := s.threads[t];
    var p' := Running(p.todo[1..], p.n, if p.ok then passes(p.todo[0]) else p.ok);
    LooksAtOne(passes, p);
    hide AllPass, Clean, AllClean, OthersClean;
    CountsAfter(s.threads, t, p');
    CleanAfter(passes, s.threads, t, p');
  }

  lemma AddKeeps(passes: Check -> bool, s: State, checks: seq<Check>)
    requires Inv(passes, s) && Enabled(s, Add(checks))
    ensures Inv(passes, Step(passes, s, Add(checks)))
  {
    SplitPasses(passes, s.queue, checks);
    SplitPasses(passes, s.added, checks);
  }

  lemma StepKeeps(passes: Check -> bool, s: State, op: Op)
    requires Inv(passes, s) && Enabled(s, op)
    ensures Inv(passes, Step(passes, s, op))
  {
    match op
    case Execute(t) => ExecuteKeeps(passes, s, t);
    case Add(checks) => AddKeeps(passes, s, checks);
    case _ =>
      BeforeIsBusy(passes, s, op);
      ExamineKeeps(passes, Before(s, op), op.t);
  }

  /** A step that takes the mutex, as its two halves. */
  lemma StepInHalves(passes: Check -> bool, s: State, op: Op)
    requires Inv(passes, s) && Enabled(s, op) && !op.Execute? && !op.Add?
    ensures Inv(passes, Step(passes, s, op)) && op.t < |s.threads| && Before(s, op).verdict.None?
    ensures Sane(Before(s, op)) && Step(passes, s, op) == Examine(Before(s, op), op.t)
  {
    StepKeeps(passes, s, op);
    BeforeIsBusy(passes, s, op);
    BusyIsSane(passes, Before(s, op), op.t);
  }

  // ---------- what the master gets, and that it gets it ----------

  /** IsIdle: what the constructor of the next CCheckQueueControl asserts. */
  predicate IsIdle(s: State) {
    s.nTotal == s.nIdle && s.nTodo == 0 && s.allOk
  }

  lemma {:induction false} NothingHeld(ts: seq<Phase>)
    requires forall t | 0 <= t < |ts| :: !ts[t].Running?
    ensures Outstanding(ts) == 0
  {
    if ts != [] {
      NothingHeld(ts[..|ts| - 1]);
    }
  }

  /** The queue is idle exactly if nothing is queued, no thread has checks in hand, and none has failed. */
  lemma IdleIff(passes: Check -> bool, s: State)
    requires Inv(passes, s)
    ensures IsIdle(s) <==> s.queue == [] && s.allOk && forall t | 0 <= t < |s.threads| :: !s.threads[t].Running?
  {
    if Outstanding(s.threads) == 0 {
      NobodyRunning(s.threads);
      forall t | 0 <= t < |s.threads| ensures !s.threads[t].Running? { HeldIsOutstanding(s.threads, t); }
    }
    if forall t | 0 <= t < |s.threads| :: !s.threads[t].Running? {
      NothingHeld(s.threads);
    }
  }

  lemma {:induction false} NobodyRunning(ts: seq<Phase>)
    requires Outstanding(ts) == 0 && forall t | 0 <= t < |ts| && ts[t].Running? :: ts[t].n >= 1
    ensures Inside(ts) == Idle(ts)
  {
    if ts != [] {
      NobodyRunning(ts[..|ts| - 1]);
    }
  }

  /** As long as nothing has been added since the master last returned, the queue is idle. */
  lemma NothingAddedIsIdle(passes: Check -> bool, s: State)
    requires Inv(passes, s) && s.added == []
    ensures IsIdle(s) && s.queue == []
  {
    NobodyRunning(s.threads);
  }

  /**
   Whenever the master returns, its verdict is whether every check added since it last returned
   passes, however the workers were interleaved and whatever they skipped; the queue is then
   empty and idle.
   */
  lemma MasterGetsTheVerdict(passes: Check -> bool, s: State, op: Op)
    requires Inv(passes, s) && Enabled(s, op) && Step(passes, s, op).verdict.Some?
    ensures var s' := Step(passes, s, op);
            && (s'.verdict.value <==> AllPass(passes, s.added))
            && s'.queue == [] && s'.nTodo == 0 && s'.threads[0].Outside? && s'.added == [] && IsIdle(s')
  {
    StepKeeps(passes, s, op);
    BeforeIsBusy(passes, s, op);
    LeaveKeeps(passes, Before(s, op), op.t);
    NothingAddedIsIdle(passes, Step(passes, s, op));
  }

  /**
   No wake-up of the master is lost: whenever it is blocked, either all is done and a notification
   sent while it was blocked is under way, or some worker still holds a batch, and handing that in
   is enabled or comes after its checks.
   */
  lemma MasterIsNeverStranded(passes: Check -> bool, s: State) returns (t: nat)
    requires Inv(passes, s) && s.threads[0].Waiting?
    ensures s.masterNotified <==> s.nTodo == 0
    ensures !s.masterNotified ==> s.nTodo > 0 && 0 < t < |s.threads| && s.threads[t].Running?
    ensures !s.masterNotified ==> Enabled(s, Execute(t)) || Enabled(s, Finish(t))
  {
    t := 0;
    if !s.masterNotified {
      t := SomebodyHolds(s.threads);
    }
  }

  /** With the master in Loop and work left, some thread can make progress. */
  lemma NoDeadlock(passes: Check -> bool, s: State) returns (op: Op)
    requires Inv(passes, s) && !s.threads[0].Outside? && s.nTodo > 0
    ensures Enabled(s, op) && (op.Execute? || op.Finish?)
  {
    var t: nat := 0;
    if s.threads[0].Waiting? {
      t := SomebodyHolds(s.threads);
    }
    op := if s.threads[t].todo == [] then Finish(t) else Execute(t);
  }

  function Unlooked(ts: seq<Phase>): nat {
    if ts == [] then 0
    else Unlooked(ts[..|ts| - 1]) + (if ts[|ts| - 1].Running? then |ts[|ts| - 1].todo| else 0)
  }

  lemma {:induction false} UnlookedAfter(ts: seq<Phase>, t: nat, p: Phase)
    requires t < |ts|
    ensures Unlooked(ts[t := p]) == Unlooked(ts) - (if ts[t].Running? then |ts[t].todo| else 0) + (if p.Running? then |p.todo| else 0)
  {
    var last := |ts| - 1;
    if t < last {
      UnlookedAfter(ts[..last], t, p);
      assert ts[t := p][..last] == ts[..last][t := p];
    } else {
      assert ts[t := p][..last] == ts[..last];
    }
  }

  /** Checks still to be looked at, and checks still to be accounted for. */
  function WorkLeft(s: State): int {
    |s.queue| + Unlooked(s.threads) + s.nTodo
  }

  lemma TodoIsCount(passes: Check -> bool, s: State)
    requires Inv(passes, s)
    ensures s.nTodo >= 0
  {
  }

  /** Looking at the queue moves checks to the thread, or nothing. */
  lemma ExamineMovesWork(s: State, t: nat)
    requires t < |s.threads| && Sane(s)
    ensures var s' := Examine(s, t); var p := s'.threads[t];
            && s'.threads == s.threads[t := p] && s'.nTodo == s.nTodo
            && |s'.queue| + (if p.Running? then |p.todo| else 0) == |s.queue|
  {
  }

  lemma ExecuteUsesWork(passes: Check -> bool, s: State, t: nat)
    requires Inv(passes, s) && Enabled(s, Execute(t))
    ensures WorkLeft(Step(passes, s, Execute(t))) == WorkLeft(s) - 1
  {
    UnlookedAfter(s.threads, t, Step(passes, s, Execute(t)).threads[t]);
  }

  lemma LookingUsesWork(passes: Check -> bool, s: State, op: Op)
    requires Inv(passes, s) && Enabled(s, op) && !op.Execute? && !op.Add?
    ensures WorkLeft(Step(passes, s, op)) == WorkLeft(s) - if op.Finish? then s.threads[op.t].n else 0
  {
    StepInHalves(passes, s, op);
    var s' := Step(passes, s, op);
    ExamineMovesWork(Before(s, op), op.t);
    UnlookedAfter(s.threads, op.t, s'.threads[op.t]);
    hide Inv, Step, Examine, Unlooked;
  }

  /**
   Nothing but adding creates work, and executing a check or handing in a batch uses some up, so
   between two additions only so many such steps can happen.
   */
  lemma WorkRunsOut(passes: Check -> bool, s: State, op: Op)
    requires Inv(passes, s) && Enabled(s, op) && !op.Add?
    ensures 0 <= WorkLeft(Step(passes, s, op)) <= WorkLeft(s)
    ensures op.Execute? || op.Finish? ==> WorkLeft(Step(passes, s, op)) < WorkLeft(s)
  {
    StepKeeps(passes, s, op);
    TodoIsCount(passes, Step(passes, s, op));
    hide Step;
    if op.Execute? {
      ExecuteUsesWork(passes, s, op.t);
    } else {
      LookingUsesWork(passes, s, op);
    }
  }

  // ---------- runs ----------

  predicate Allowed(passes: Check -> bool, s: State, ops: seq<Op>)
    requires Inv(passes, s)
    decreases |ops|
  {
    ops == [] || (Enabled(s, ops[0]) && (StepKeeps(passes, s, ops[0]); Allowed(passes, Step(passes, s, ops[0]), ops[1..])))
  }

  function Run(passes: Check -> bool, s: State, ops: seq<Op>): (s': State)
    requires Inv(passes, s) && Allowed(passes, s, ops)
    ensures Inv(passes, s')
    decreases |ops|
  {
    if ops == [] then s else (StepKeeps(passes, s, ops[0]); Run(passes, Step(passes, s, ops[0]), ops[1..]))
  }

  lemma InitialIsOk(passes: Check -> bool, batchSize: nat, threads: nat)
    requires threads > 0
    ensures Inv(passes, Initial(batchSize, threads))
  {
    NobodyInside(threads);
  }

  /** All the checks added in the course of some steps. */
  function AddedBy(ops: seq<Op>): seq<Check> {
    if ops == [] then [] else AddedOf(ops[0]) + AddedBy(ops[1..])
  }

  function AddedOf(op: Op): seq<Check> {
    if op.Add? then op.checks else []
  }

  lemma StepAdds(passes: Check -> bool, s: State, op: Op)
    requires Inv(passes, s) && Enabled(s, op) && Step(passes, s, op).verdict.None?
    ensures Step(passes, s, op).added == s.added + AddedOf(op)
  {
    if op.Execute? || op.Add? {
    } else {
      BeforeIsBusy(passes, s, op);
      BusyIsSane(passes, Before(s, op), op.t);
    }
  }

  /** The master does not return in the course of these steps. */
  predicate NoReturn(passes: Check -> bool, s: State, ops: seq<Op>)
    requires Inv(passes, s) && Allowed(passes, s, ops)
    decreases |ops|
  {
    ops == [] || (StepKeeps(passes, s, ops[0]);
                  Step(passes, s, ops[0]).verdict.None? && NoReturn(passes, Step(passes, s, ops[0]), ops[1..]))
  }

  lemma {:induction false} AddedInRun(passes: Check -> bool, s: State, ops: seq<Op>)
    requires Inv(passes, s) && Allowed(passes, s, ops) && NoReturn(passes, s, ops)
    ensures Run(passes, s, ops).added == s.added + AddedBy(ops)
    decreases |ops|
  {
    hide Inv, Step, Enabled, AddedOf;
    if ops != [] {
      StepKeeps(passes, s, ops[0]);
      StepAdds(passes, s, ops[0]);
      AddedInRun(passes, Step(passes, s, ops[0]), ops[1..]);
    }
  }

  /**
   Start from a fresh queue or from a return of the master, let any threads take any steps, and
   let the master return next: it reports whether all the checks added on the way pass.
   */
  lemma WaitReportsTheConjunction(passes: Check -> bool, s: State, ops: seq<Op>, last: Op)
    requires Inv(passes, s) && s.added == [] && Allowed(passes, s, ops) && NoReturn(passes, s, ops)
    requires var s1 := Run(passes, s, ops); Enabled(s1, last) && Step(passes, s1, last).verdict.Some?
    ensures var s' := Step(passes, Run(passes, s, ops), last);
            && (s'.verdict.value <==> AllPass(passes, AddedBy(ops)))
            && Inv(passes, s') && s'.added == [] && IsIdle(s')
  {
    hide Inv, AddedBy, AllPass, Run, Allowed, NoReturn, Step, Enabled, IsIdle;
    AddedInRun(passes, s, ops);
    assert [] + AddedBy(ops) == AddedBy(ops);
    MasterGetsTheVerdict(passes, Run(passes, s, ops), last);
    StepKeeps(passes, Run(passes, s, ops), last);
  }
}
