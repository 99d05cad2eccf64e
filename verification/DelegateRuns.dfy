/** Theorems over whole runs of a delegate batch: safety, fairness of the queue, progress, results. */
module DelegateRuns {
  import opened Wrappers
  import opened DelegateScheduler
  import opened DelegateSafety

  ghost predicate ValidRun(cfg: Config, s: Batch, steps: seq<Step>)
    requires |s.runs| == |cfg.tasks|
    decreases |steps|
  {
    steps == [] || (Enabled(s, steps[0]) && ValidRun(cfg, Next(cfg, s, steps[0]), steps[1..]))
  }

  ghost function Final(cfg: Config, s: Batch, steps: seq<Step>): (t: Batch)
    requires |s.runs| == |cfg.tasks| && ValidRun(cfg, s, steps)
    ensures |t.runs| == |s.runs|
    decreases |steps|
  {
    if steps == [] then s else Final(cfg, Next(cfg, s, steps[0]), steps[1..])
  }

  lemma {:induction false} RunKeepsInv(cfg: Config, s: Batch, steps: seq<Step>)
    requires Inv(cfg, s) && ValidRun(cfg, s, steps)
    ensures Inv(cfg, Final(cfg, s, steps))
    decreases |steps|
  {
    if steps != [] {
      InvStep(cfg, s, steps[0]);
      RunKeepsInv(cfg, Next(cfg, s, steps[0]), steps[1..]);
    }
  }

  /** Safety of the window in every interleaving, throwing tasks included. */
  lemma WindowSafety(cfg: Config, steps: seq<Step>)
    requires ValidRun(cfg, Init(cfg), steps)
    ensures var t := Final(cfg, Init(cfg), steps); var w := t.window;
            && 1 <= w.limit <= cfg.Ceiling()
            && w.active == |set i: nat | i < |t.runs| && (t.runs[i].phase.Admitted? || t.runs[i].phase.Running?)|
            && w.active <= cfg.Ceiling()
            && (w.waiters != [] ==> w.active >= w.limit)
            && (forall i: nat :: i in w.waiters <==> i < |t.runs| && t.runs[i].phase.Queued?)
            && (forall j, k :: 0 <= j < k < |w.waiters| ==> w.waiters[j] != w.waiters[k])
  {
    InitInv(cfg);
    RunKeepsInv(cfg, Init(cfg), steps);
    var t := Final(cfg, Init(cfg), steps);
    assert Holders(t.runs) == set i: nat | i < |t.runs| && (t.runs[i].phase.Admitted? || t.runs[i].phase.Running?);
  }

  // ---------------------------------------------------------------- the queue is first in, first out

  predicate Finishes(cfg: Config, s: Batch, i: nat, out: Outcome)
    requires i < |s.runs|
  {
    !IsRateLimitedOutcome(cfg, out) && !ShouldRetryAttempt(cfg, out.failure, s.runs[i].attempts)
  }

  /** The tasks a step takes off the queue, in the order their promises resolve. */
  function WokenBy(cfg: Config, s: Batch, step: Step): seq<nat>
    requires |s.runs| == |cfg.tasks| && Enabled(s, step)
  {
    match step
    case Complete(i, out, _) =>
      Woken(Freed(s.window)) +
      (if Finishes(cfg, s, i, out) then Woken(Raised(Wake(Freed(s.window)), cfg.Ceiling())) else [])
    case Throw(_) => Woken(Freed(s.window))
    case _ => []
  }

  /** The task a step puts on the queue, if any. */
  function JoinedBy(cfg: Config, s: Batch, step: Step): seq<nat>
    requires |s.runs| == |cfg.tasks| && Enabled(s, step)
  {
    var i := Actor(s, step);
    if InPhase(Next(cfg, s, step), i, Queued) then [i] else []
  }

  lemma WakeConserves(w: Window)
    ensures w.waiters == Woken(w) + Wake(w).waiters
  {
  }

  lemma QueueChain(a: seq<nat>, j1: seq<nat>, w1: seq<nat>, b: seq<nat>, j2: seq<nat>, w2: seq<nat>, c: seq<nat>)
    requires a + j1 == w1 + b && b + j2 == w2 + c
    ensures a + (j1 + j2) == (w1 + w2) + c
  {
    assert a + (j1 + j2) == (a + j1) + j2;
    assert (w1 + b) + j2 == w1 + (b + j2);
    assert w1 + (w2 + c) == (w1 + w2) + c;
  }

  /** What the code after a run does to the queue once the slot is released. */
  lemma AfterRunQueue(cfg: Config, s: Batch, i: nat, out: Outcome, past: bool)
    requires Core(cfg, s) && InPhase(s, i, Deciding)
    ensures var t := AfterRun(cfg, s, i, out, past);
            var joined := if InPhase(t, i, Queued) then [i] else [];
            if Finishes(cfg, s, i, out)
            then joined == [] && t.window.waiters == Wake(Raised(s.window, cfg.Ceiling())).waiters
            else t.window.waiters == s.window.waiters + joined
  {
  }

  lemma TwoWakes(w: Window, left: Window, raised: Window, joined: seq<nat>, finishes: bool, last: seq<nat>)
    requires left == Wake(w) && raised.waiters == left.waiters
    requires if finishes then joined == [] && last == Wake(raised).waiters else last == left.waiters + joined
    ensures w.waiters + joined == (Woken(w) + if finishes then Woken(raised) else []) + last
  {
    WakeConserves(w);
    WakeConserves(raised);
    QueueChain(w.waiters, [], Woken(w), left.waiters, joined, if finishes then Woken(raised) else [], last);
    assert [] + joined == joined;
  }

  lemma CompleteConservesQueue(cfg: Config, s: Batch, i: nat, out: Outcome, past: bool)
    requires Inv(cfg, s) && Enabled(s, Complete(i, out, past))
    ensures var step := Complete(i, out, past);
            s.window.waiters + JoinedBy(cfg, s, step) == WokenBy(cfg, s, step) + Next(cfg, s, step).window.waiters
  {
    LeaveSlotKeeps(cfg, s, i);
    var left, t := LeaveSlot(s, i), Next(cfg, s, Complete(i, out, past));
    AfterRunQueue(cfg, left, i, out, past);
    TwoWakes(Freed(s.window), left.window, Raised(left.window, cfg.Ceiling()),
             JoinedBy(cfg, s, Complete(i, out, past)), Finishes(cfg, left, i, out), t.window.waiters);
  }

  lemma ThrowConservesQueue(cfg: Config, s: Batch, i: nat)
    requires Inv(cfg, s) && Enabled(s, Throw(i))
    ensures s.window.waiters + JoinedBy(cfg, s, Throw(i)) == WokenBy(cfg, s, Throw(i)) + Next(cfg, s, Throw(i)).window.waiters
  {
    WakeConserves(Freed(s.window));
    assert JoinedBy(cfg, s, Throw(i)) == [];
    assert s.window.waiters + [] == s.window.waiters;
  }

  lemma StepConservesQueue(cfg: Config, s: Batch, step: Step)
    requires Inv(cfg, s) && Enabled(s, step)
    ensures s.window.waiters + JoinedBy(cfg, s, step) == WokenBy(cfg, s, step) + Next(cfg, s, step).window.waiters
  {
    match step
    case Complete(i, out, past) => CompleteConservesQueue(cfg, s, i, out, past);
    case Throw(i) => ThrowConservesQueue(cfg, s, i);
    case _ =>
  }

  lemma WakeAdmits(s: Batch, j: nat)
    requires QueueOk(s.window.waiters, s.runs) && j < |s.runs|
    ensures j in Woken(s.window) <==> s.runs[j].phase == Queued && WakeBatch(s).runs[j].phase == Admitted
    ensures j !in Woken(s.window) ==> WakeBatch(s).runs[j] == s.runs[j]
  {
    assert j in Woken(s.window) ==> j in s.window.waiters;
  }

  lemma AfterRunAdmits(cfg: Config, s: Batch, i: nat, out: Outcome, past: bool, j: nat)
    requires Core(cfg, s) && InPhase(s, i, Deciding) && j < |s.runs| && j != i
    ensures var t := AfterRun(cfg, s, i, out, past);
            if Finishes(cfg, s, i, out) && j in Woken(Raised(s.window, cfg.Ceiling()))
            then s.runs[j].phase == Queued && t.runs[j].phase == Admitted
            else t.runs[j] == s.runs[j]
  {
    WakeAdmits(s.(window := Raised(s.window, cfg.Ceiling())), j);
  }

  /** The woken tasks are exactly the queued ones that now hold a slot: no wake-up is lost or invented. */
  lemma WokenAreAdmitted(cfg: Config, s: Batch, step: Step, j: nat)
    requires Inv(cfg, s) && Enabled(s, step) && j < |s.runs|
    ensures j in WokenBy(cfg, s, step) <==>
            s.runs[j].phase == Queued && Next(cfg, s, step).runs[j].phase == Admitted
  {
    if step.Complete? || step.Throw? {
      var i, left := step.i, LeaveSlot(s, step.i);
      LeaveSlotKeeps(cfg, s, i);
      WakeAdmits(To(s, i, Deciding).(window := Freed(s.window)), j);
      assert i !in s.window.waiters && i !in left.window.waiters;
      if step.Complete? && j != i {
        AfterRunAdmits(cfg, left, i, step.out, step.past, j);
      }
    }
  }

  lemma AfterRunLimit(cfg: Config, s: Batch, i: nat, out: Outcome, past: bool)
    requires i < |s.runs| == |cfg.tasks| && 1 <= s.window.limit <= cfg.Ceiling()
    ensures var before, after := s.window.limit, AfterRun(cfg, s, i, out, past).window.limit;
            if IsRateLimitedOutcome(cfg, out) then after == before == 1 || before - 1 <= 2 * after <= before
            else if Finishes(cfg, s, i, out) then after == Min(before + 1, cfg.Ceiling())
            else after == before
  {
  }

  lemma CompleteMovesLimit(cfg: Config, s: Batch, i: nat, out: Outcome, past: bool)
    requires Inv(cfg, s) && i < |s.runs|
    ensures var before, after := s.window.limit, AfterRun(cfg, LeaveSlot(s, i), i, out, past).window.limit;
            if IsRateLimitedOutcome(cfg, out) then after == before == 1 || before - 1 <= 2 * after <= before
            else if Finishes(cfg, s, i, out) then after == Min(before + 1, cfg.Ceiling())
            else after == before
  {
    AfterRunLimit(cfg, LeaveSlot(s, i), i, out, past);
  }

  /** The window halves on a rate limit, grows by one on any other end, and moves at no other time. */
  lemma LimitMoves(cfg: Config, s: Batch, step: Step)
    requires Inv(cfg, s) && Enabled(s, step)
    ensures var before, after := s.window.limit, Next(cfg, s, step).window.limit;
            match step
            case Complete(i, out, _) =>
              if IsRateLimitedOutcome(cfg, out) then after == before == 1 || before - 1 <= 2 * after <= before
              else if Finishes(cfg, s, i, out) then after == Min(before + 1, cfg.Ceiling())
              else after == before
            case _ => after == before
  {
    if step.Complete? { CompleteMovesLimit(cfg, s, step.i, step.out, step.past); }
  }

  lemma AfterRunPastNobody(cfg: Config, s: Batch, i: nat, out: Outcome, past: bool)
    requires Core(cfg, s) && InPhase(s, i, Deciding)
    requires InPhase(AfterRun(cfg, s, i, out, past), i, Admitted)
    ensures AfterRun(cfg, s, i, out, past).window.waiters == []
  {
  }

  /** Whoever gets a slot without queueing finds the queue empty: nobody is overtaken. */
  lemma NoOvertaking(cfg: Config, s: Batch, step: Step)
    requires Inv(cfg, s) && Enabled(s, step)
    requires InPhase(Next(cfg, s, step), Actor(s, step), Admitted)
    ensures Next(cfg, s, step).window.waiters == []
  {
    if step.Complete? {
      LeaveSlotKeeps(cfg, s, step.i);
      AfterRunPastNobody(cfg, LeaveSlot(s, step.i), step.i, step.out, step.past);
    }
  }

  function Joins(cfg: Config, s: Batch, steps: seq<Step>): seq<nat>
    requires |s.runs| == |cfg.tasks| && ValidRun(cfg, s, steps)
    decreases |steps|
  {
    if steps == [] then [] else JoinedBy(cfg, s, steps[0]) + Joins(cfg, Next(cfg, s, steps[0]), steps[1..])
  }

  function Wakes(cfg: Config, s: Batch, steps: seq<Step>): seq<nat>
    requires |s.runs| == |cfg.tasks| && ValidRun(cfg, s, steps)
    decreases |steps|
  {
    if steps == [] then [] else WokenBy(cfg, s, steps[0]) + Wakes(cfg, Next(cfg, s, steps[0]), steps[1..])
  }

  lemma {:induction false} RunConservesQueue(cfg: Config, s: Batch, steps: seq<Step>)
    requires Inv(cfg, s) && ValidRun(cfg, s, steps)
    ensures s.window.waiters + Joins(cfg, s, steps) == Wakes(cfg, s, steps) + Final(cfg, s, steps).window.waiters
    decreases |steps|
  {
    if steps != [] {
      var t := Next(cfg, s, steps[0]);
      InvStep(cfg, s, steps[0]);
      StepConservesQueue(cfg, s, steps[0]);
      RunConservesQueue(cfg, t, steps[1..]);
      QueueChain(s.window.waiters, JoinedBy(cfg, s, steps[0]), WokenBy(cfg, s, steps[0]), t.window.waiters,
                 Joins(cfg, t, steps[1..]), Wakes(cfg, t, steps[1..]), Final(cfg, s, steps).window.waiters);
    }
  }

  /** Tasks are woken exactly in the order they queued; the queue holds those not yet woken. */
  lemma QueueIsFifo(cfg: Config, steps: seq<Step>)
    requires ValidRun(cfg, Init(cfg), steps)
    ensures Joins(cfg, Init(cfg), steps) == Wakes(cfg, Init(cfg), steps) + Final(cfg, Init(cfg), steps).window.waiters
  {
    InitInv(cfg);
    RunConservesQueue(cfg, Init(cfg), steps);
    assert Init(cfg).window.waiters + Joins(cfg, Init(cfg), steps) == Joins(cfg, Init(cfg), steps);
  }

  // ---------------------------------------------------------------- termination

  /** Launches a task may still make, weighted so that every step of the task counts down. */
  function Weight(cfg: Config, run: Run): nat
    requires run.rateLimited <= cfg.Allowance()
  {
    var left := cfg.Allowance() - run.rateLimited;
    match run.phase
    case Running => 5 * (left + if run.attempts == 1 then 1 else 0) + 4
    case Done(_) => 0
    case Failed => 0
    case p =>
      5 * (left + 1 + if run.attempts == 0 then 1 else 0) +
      (match p case Queued => 2 case Admitted => 1 case _ => 3)
  }

  function TotalWeight(cfg: Config, runs: seq<Run>): nat
    requires forall i: nat :: i < |runs| ==> runs[i].rateLimited <= cfg.Allowance()
  {
    if runs == [] then 0 else Weight(cfg, runs[0]) + TotalWeight(cfg, runs[1..])
  }

  lemma {:induction false} TotalWeightDrops(cfg: Config, before: seq<Run>, after: seq<Run>, a: int)
    requires |before| == |after| && a < |before|
    requires forall i: nat :: i < |before| ==> before[i].rateLimited <= cfg.Allowance()
    requires forall i: nat :: i < |after| ==> after[i].rateLimited <= cfg.Allowance()
    requires forall i: nat :: i < |before| ==> Weight(cfg, after[i]) <= Weight(cfg, before[i])
    requires a >= 0 ==> Weight(cfg, after[a]) < Weight(cfg, before[a])
    ensures TotalWeight(cfg, after) <= TotalWeight(cfg, before) - (if a >= 0 then 1 else 0)
  {
    if before != [] {
      TotalWeightDrops(cfg, before[1..], after[1..], a - 1);
    }
  }

  /** How a task leaves the head of the loop: past the deadline, with a slot, or in the queue. */
  predicate Decided(run: Run, next: Run) {
    next.phase.Done? || ((next.phase.Admitted? || next.phase.Queued?) && next == run.(phase := next.phase))
  }

  /** How a task leaves the code after a run: with a result, to back off, or for its one more attempt. */
  predicate MovesOn(cfg: Config, out: Outcome, run: Run, next: Run) {
    || (next.phase.BackingOff? && next == Run(BackingOff, run.attempts, run.rateLimited + 1))
    || next.phase.Done?
    || (Decided(run, next) && ShouldRetryAttempt(cfg, out.failure, run.attempts))
  }

  lemma DecideMoves(cfg: Config, s: Batch, i: nat, past: bool)
    requires i < |s.runs| == |cfg.tasks|
    ensures Decided(s.runs[i], Decide(cfg, s, i, past).runs[i])
  {
  }

  lemma FinishMoves(cfg: Config, s: Batch, i: nat, out: Outcome)
    requires i < |s.runs| == |cfg.tasks|
    ensures Finish(cfg, s, i, out).runs[i].phase.Done?
  {
  }

  lemma AfterRunMoves(cfg: Config, s: Batch, i: nat, out: Outcome, past: bool)
    requires i < |s.runs| == |cfg.tasks|
    ensures MovesOn(cfg, out, s.runs[i], AfterRun(cfg, s, i, out, past).runs[i])
  {
    if !IsRateLimitedOutcome(cfg, out) {
      if ShouldRetryAttempt(cfg, out.failure, s.runs[i].attempts) {
        DecideMoves(cfg, s, i, past);
      } else {
        FinishMoves(cfg, s, i, out);
      }
    }
  }

  lemma MovingCountsDown(cfg: Config, out: Outcome, i: nat, before: Run, run: Run, next: Run)
    requires i < |cfg.tasks| && RunOk(cfg, i, run) && run == before.(phase := Deciding) && before.phase.Running?
    requires MovesOn(cfg, out, run, next) && next.rateLimited <= cfg.Allowance()
    ensures Weight(cfg, next) < Weight(cfg, before)
  {
  }

  lemma CompleteCountsDown(cfg: Config, s: Batch, i: nat, out: Outcome, past: bool)
    requires Inv(cfg, s) && InPhase(s, i, Running)
    ensures var next := AfterRun(cfg, LeaveSlot(s, i), i, out, past).runs[i];
            next.rateLimited <= cfg.Allowance() && Weight(cfg, next) < Weight(cfg, s.runs[i])
  {
    LeaveSlotKeeps(cfg, s, i);
    var left := LeaveSlot(s, i);
    AfterRunKeeps(cfg, left, i, out, past);
    AfterRunMoves(cfg, left, i, out, past);
    MovingCountsDown(cfg, out, i, s.runs[i], left.runs[i], AfterRun(cfg, left, i, out, past).runs[i]);
  }

  lemma DecidingCountsDown(cfg: Config, i: nat, run: Run, next: Run)
    requires i < |cfg.tasks| && RunOk(cfg, i, run) && Decided(run, next) && (run.phase.Fresh? || run.phase.BackingOff?)
    requires next.rateLimited <= cfg.Allowance()
    ensures Weight(cfg, next) < Weight(cfg, run)
  {
  }

  lemma ActorCountsDown(cfg: Config, s: Batch, step: Step)
    requires Inv(cfg, s) && Enabled(s, step) && Inv(cfg, Next(cfg, s, step))
    ensures var a := Actor(s, step);
            a < |s.runs| && Weight(cfg, Next(cfg, s, step).runs[a]) < Weight(cfg, s.runs[a])
  {
    var a := Actor(s, step);
    assert RunOk(cfg, a, s.runs[a]);
    assert RunOk(cfg, a, Next(cfg, s, step).runs[a]);
    match step
    case Begin(past) =>
      DecideMoves(cfg, s, a, past);
      DecidingCountsDown(cfg, a, s.runs[a], Next(cfg, s, step).runs[a]);
    case BackoffEnd(_, past) =>
      DecideMoves(cfg, s, a, past);
      DecidingCountsDown(cfg, a, s.runs[a], Next(cfg, s, step).runs[a]);
    case Complete(_, out, past) => CompleteCountsDown(cfg, s, a, out, past);
    case _ =>
  }

  lemma StepCountsDown(cfg: Config, s: Batch, step: Step)
    requires Inv(cfg, s) && Enabled(s, step) && Inv(cfg, Next(cfg, s, step))
    ensures TotalWeight(cfg, Next(cfg, s, step).runs) < TotalWeight(cfg, s.runs)
  {
    var t, a := Next(cfg, s, step), Actor(s, step);
    ActorCountsDown(cfg, s, step);
    StepFrames(cfg, s, step);
    forall i: nat | i < |s.runs| ensures Weight(cfg, t.runs[i]) <= Weight(cfg, s.runs[i]) {
      assert i != a ==> t.runs[i] == s.runs[i] || t.runs[i] == s.runs[i].(phase := Admitted);
    }
    TotalWeightDrops(cfg, s.runs, t.runs, a);
  }

  lemma {:induction false} RunCountsDown(cfg: Config, s: Batch, steps: seq<Step>)
    requires Inv(cfg, s) && ValidRun(cfg, s, steps)
    ensures |steps| <= TotalWeight(cfg, s.runs)
    decreases |steps|
  {
    if steps != [] {
      InvStep(cfg, s, steps[0]);
      StepCountsDown(cfg, s, steps[0]);
      RunCountsDown(cfg, Next(cfg, s, steps[0]), steps[1..]);
    }
  }

  lemma {:induction false} FreshWeight(cfg: Config, runs: seq<Run>)
    requires forall i: nat :: i < |runs| ==> runs[i] == Run(Fresh, 0, 0)
    ensures TotalWeight(cfg, runs) == |runs| * (5 * (cfg.Allowance() + 2) + 3)
  {
    if runs != [] {
      FreshWeight(cfg, runs[1..]);
    }
  }

  /** No run is infinite: a batch of n tasks takes a bounded number of steps, whatever the tasks answer. */
  lemma Termination(cfg: Config, steps: seq<Step>)
    requires ValidRun(cfg, Init(cfg), steps)
    ensures |steps| <= |cfg.tasks| * (5 * (cfg.Allowance() + 2) + 3)
  {
    InitInv(cfg);
    RunCountsDown(cfg, Init(cfg), steps);
    FreshWeight(cfg, Init(cfg).runs);
  }

  // ---------------------------------------------------------------- progress and results

  predicate Ended(run: Run) { run.phase.Done? || run.phase.Failed? }

  predicate IsThrow(step: Step) { step.Throw? || step.BackoffThrow? }

  /** While a task is unfinished some step can happen, and it need not be a throw: no deadlock. */
  lemma Progress(cfg: Config, s: Batch, i: nat, out: Outcome) returns (step: Step)
    requires Inv(cfg, s) && i < |s.runs| && !Ended(s.runs[i])
    ensures Enabled(s, step) && !IsThrow(step)
  {
    if s.started < |s.runs| { return Begin(false); }
    match s.runs[i].phase
    case Admitted => return Launch(i);
    case Running => return Complete(i, out, false);
    case BackingOff => return BackoffEnd(i, false);
    case Queued =>
      assert i in s.window.waiters;
      assert |Holders(s.runs)| >= 1;
      var h :| h in Holders(s.runs);
      return if s.runs[h].phase.Admitted? then Launch(h) else Complete(h, out, false);
  }

  predicate NoneFailed(s: Batch) { forall i: nat :: i < |s.runs| ==> !s.runs[i].phase.Failed? }

  predicate NoThrows(steps: seq<Step>) { forall k :: 0 <= k < |steps| ==> !IsThrow(steps[k]) }

  lemma FailsOnlyByThrow(cfg: Config, s: Batch, step: Step, i: nat)
    requires Inv(cfg, s) && Enabled(s, step) && !IsThrow(step)
    requires i < |s.runs| && !s.runs[i].phase.Failed?
    ensures !Next(cfg, s, step).runs[i].phase.Failed?
  {
    StepFrames(cfg, s, step);
    if i == Actor(s, step) {
      match step
      case Begin(past) => DecideMoves(cfg, s, i, past);
      case BackoffEnd(_, past) => DecideMoves(cfg, s, i, past);
      case Complete(_, out, past) =>
        LeaveSlotKeeps(cfg, s, i);
        AfterRunMoves(cfg, LeaveSlot(s, i), i, out, past);
      case _ =>
    }
  }

  lemma {:induction false} WithoutThrowsNoneFails(cfg: Config, s: Batch, steps: seq<Step>)
    requires Inv(cfg, s) && ValidRun(cfg, s, steps) && NoThrows(steps) && NoneFailed(s)
    ensures NoneFailed(Final(cfg, s, steps))
    decreases |steps|
  {
    if steps != [] {
      var t := Next(cfg, s, steps[0]);
      InvStep(cfg, s, steps[0]);
      forall i: nat | i < |t.runs| ensures !t.runs[i].phase.Failed? {
        FailsOnlyByThrow(cfg, s, steps[0], i);
      }
      WithoutThrowsNoneFails(cfg, t, steps[1..]);
    }
  }

  /** The array the call resolves to once every task is done. */
  function Results(s: Batch): seq<DelegateResult>
    requires forall i: nat :: i < |s.runs| ==> s.runs[i].phase.Done?
  {
    seq(|s.runs|, i requires 0 <= i < |s.runs| => s.runs[i].phase.result)
  }

  /** A throw-free run that cannot go on has one result per task, in task order, within the attempt ceiling. */
  lemma BatchCompletes(cfg: Config, steps: seq<Step>)
    requires ValidRun(cfg, Init(cfg), steps) && NoThrows(steps)
    requires forall step :: Enabled(Final(cfg, Init(cfg), steps), step) ==> IsThrow(step)
    ensures var t := Final(cfg, Init(cfg), steps);
            && (forall i: nat :: i < |t.runs| ==> t.runs[i].phase.Done?)
            && |Results(t)| == |cfg.tasks|
            && forall i: nat :: i < |cfg.tasks| ==>
                 && Results(t)[i].name == cfg.tasks[i].name
                 && Results(t)[i].fingerprint == cfg.fingerprint(cfg.tasks[i].text)
                 && Results(t)[i].attempts <= 2 + cfg.Allowance()
                 && (Results(t)[i].status == Deferred <==> Results(t)[i].runId == DeferredRun(i))
  {
    InitInv(cfg);
    RunKeepsInv(cfg, Init(cfg), steps);
    WithoutThrowsNoneFails(cfg, Init(cfg), steps);
    var t := Final(cfg, Init(cfg), steps);
    forall i: nat | i < |t.runs|
      ensures t.runs[i].phase.Done? && ResultOk(cfg, i, t.runs[i].phase.result)
    {
      if !Ended(t.runs[i]) {
        var step := Progress(cfg, t, i, Outcome("", Completed, None, None, None, None));
      }
      assert RunOk(cfg, i, t.runs[i]);
    }
  }

  // ---------------------------------------------------------------- what a result reports

  function Launches(steps: seq<Step>, i: nat): nat {
    if steps == [] then 0 else (if steps[0] == Launch(i) then 1 else 0) + Launches(steps[1..], i)
  }

  function LastOutcome(steps: seq<Step>, i: nat): Option<Outcome> {
    if steps == [] then None
    else
      var later := LastOutcome(steps[1..], i);
      if later.Some? then later
      else if steps[0].Complete? && steps[0].i == i then Some(steps[0].out) else None
  }

  lemma {:induction false} DoneStaysDone(cfg: Config, s: Batch, steps: seq<Step>, i: nat)
    requires Inv(cfg, s) && ValidRun(cfg, s, steps) && i < |s.runs| && s.runs[i].phase.Done?
    ensures Final(cfg, s, steps).runs[i] == s.runs[i]
    ensures Launches(steps, i) == 0 && LastOutcome(steps, i) == None
    decreases |steps|
  {
    if steps != [] {
      InvStep(cfg, s, steps[0]);
      StepFrames(cfg, s, steps[0]);
      DoneStaysDone(cfg, Next(cfg, s, steps[0]), steps[1..], i);
    }
  }

  ghost predicate Reports(cfg: Config, r: DelegateResult, out: Outcome) {
    && r.runId == ChildRun(out.runId) && r.status == Ran(out.status)
    && r.summary == out.summary && r.output == out.output && r.error == out.error
    && !IsRateLimitedOutcome(cfg, out)
  }

  lemma AfterRunReports(cfg: Config, s: Batch, i: nat, out: Outcome, past: bool)
    requires Core(cfg, s) && InPhase(s, i, Deciding)
    ensures var run := AfterRun(cfg, s, i, out, past).runs[i];
            && run.attempts == s.runs[i].attempts
            && (run.phase.Done? && run.phase.result.status.Ran? ==> Reports(cfg, run.phase.result, out))
  {
  }

  lemma DoneByStep(cfg: Config, s: Batch, step: Step, i: nat)
    requires Inv(cfg, s) && Enabled(s, step) && i < |s.runs| && !s.runs[i].phase.Done?
    ensures var run := Next(cfg, s, step).runs[i];
            && run.attempts == s.runs[i].attempts + Launches([step], i)
            && (run.phase.Done? && run.phase.result.status.Ran? ==>
                step.Complete? && step.i == i && Reports(cfg, run.phase.result, step.out))
  {
    StepFrames(cfg, s, step);
    if step.Complete? && step.i == i {
      LeaveSlotKeeps(cfg, s, i);
      AfterRunReports(cfg, LeaveSlot(s, i), i, step.out, step.past);
    }
  }

  /** A returned result is the task's last outcome, and its attempt count is the number of launches. */
  lemma {:induction false} ResultsAreTruthful(cfg: Config, s: Batch, steps: seq<Step>, i: nat)
    requires Inv(cfg, s) && ValidRun(cfg, s, steps) && i < |s.runs| && !s.runs[i].phase.Done?
    ensures var run := Final(cfg, s, steps).runs[i];
            && run.attempts == s.runs[i].attempts + Launches(steps, i)
            && (run.phase.Done? && run.phase.result.status.Ran? ==>
                LastOutcome(steps, i).Some? && Reports(cfg, run.phase.result, LastOutcome(steps, i).value))
    decreases |steps|
  {
    if steps != [] {
      var t := Next(cfg, s, steps[0]);
      InvStep(cfg, s, steps[0]);
      DoneByStep(cfg, s, steps[0], i);
      if t.runs[i].phase.Done? {
        DoneStaysDone(cfg, t, steps[1..], i);
      } else {
        ResultsAreTruthful(cfg, t, steps[1..], i);
      }
    }
  }

  /** A task is deferred only by an expired deadline or once its rate-limit allowance is spent. */
  lemma DeferredOnlyForCause(cfg: Config, s: Batch, step: Step, i: nat)
    requires Inv(cfg, s) && Enabled(s, step) && i < |s.runs| && !s.runs[i].phase.Done?
    requires var run := Next(cfg, s, step).runs[i]; run.phase.Done? && run.phase.result.status.Deferred?
    ensures i == Actor(s, step)
    ensures match step
            case Begin(past) => past
            case BackoffEnd(_, past) => past
            case Complete(_, out, past) =>
              if IsRateLimitedOutcome(cfg, out) then s.runs[i].rateLimited >= cfg.Allowance()
              else past && ShouldRetryAttempt(cfg, out.failure, s.runs[i].attempts)
            case _ => false
  {
    StepFrames(cfg, s, step);
    if step.Complete? {
      LeaveSlotKeeps(cfg, s, step.i);
    }
  }
}
