/** What every interleaving of a delegate batch keeps, and what a finished batch returns. */
module DelegateSafety {
  import opened Collections
  import opened Wrappers
  import opened DelegateScheduler

  // ---------------------------------------------------------------- the invariant

  predicate Holding(run: Run) { run.phase.Admitted? || run.phase.Running? }

  function Holders(runs: seq<Run>): set<nat> { set i: nat | i < |runs| && Holding(runs[i]) }

  ghost predicate ResultOk(cfg: Config, i: nat, r: DelegateResult)
    requires i < |cfg.tasks|
  {
    && r.fingerprint == cfg.fingerprint(cfg.tasks[i].text)
    && r.name == cfg.tasks[i].name
    && (r.status.Deferred? <==> r.runId == DeferredRun(i))
    && r.attempts <= cfg.Allowance() + 2
  }

  /** The retry budget: one attempt per rate limit survived, and at most one interruption. */
  ghost predicate RunOk(cfg: Config, i: nat, run: Run)
    requires i < |cfg.tasks|
  {
    && run.rateLimited <= run.attempts <= cfg.Allowance() + 2
    && run.rateLimited <= cfg.Allowance()
    && match run.phase
       case Fresh => run.attempts == 0
       case Deciding => run.rateLimited < run.attempts <= run.rateLimited + 2
       case Running => run.rateLimited < run.attempts <= run.rateLimited + 2
       case Done(r) => ResultOk(cfg, i, r) && r.attempts == run.attempts
       case Failed => true
       case _ => run.attempts <= run.rateLimited + 1
  }

  ghost predicate RunsOk(cfg: Config, runs: seq<Run>) {
    && |runs| == |cfg.tasks|
    && forall i: nat :: i < |runs| ==> RunOk(cfg, i, runs[i])
  }

  /** The waiter queue lists every queued task, once. */
  ghost predicate QueueOk(waiters: seq<nat>, runs: seq<Run>) {
    && Distinct(waiters)
    && (forall i :: i in waiters ==> i < |runs| && runs[i].phase == Queued)
    && (forall i: nat :: i < |runs| && runs[i].phase == Queued ==> i in waiters)
  }

  ghost predicate WindowOk(cfg: Config, s: Batch) {
    && 1 <= s.window.limit <= cfg.Ceiling()
    && s.window.active == |Holders(s.runs)| <= cfg.Ceiling()
    && QueueOk(s.window.waiters, s.runs)
  }

  ghost predicate NoLostWakeup(w: Window) { w.waiters != [] ==> w.active >= w.limit }

  ghost predicate Core(cfg: Config, s: Batch) {
    RunsOk(cfg, s.runs) && WindowOk(cfg, s) && NoLostWakeup(s.window)
  }

  /** Between two steps: the tasks below `started` have begun, and none is mid-decision. */
  ghost predicate Inv(cfg: Config, s: Batch) {
    && Core(cfg, s)
    && s.started <= |s.runs|
    && (forall i: nat :: i < |s.runs| ==> (s.runs[i].phase.Fresh? <==> s.started <= i))
    && (forall i: nat :: i < |s.runs| ==> !s.runs[i].phase.Deciding?)
  }

  // ---------------------------------------------------------------- set bookkeeping

  lemma HoldersUpdate(runs: seq<Run>, i: nat, r: Run)
    requires i < |runs|
    ensures Holders(runs[i := r]) == if Holding(r) then Holders(runs) + {i} else Holders(runs) - {i}
  {
  }

  lemma HoldersMarked(runs: seq<Run>, woken: seq<nat>)
    requires Distinct(woken)
    requires forall i :: i in woken ==> i < |runs| && runs[i].phase == Queued
    ensures |Holders(MarkAdmitted(runs, woken))| == |Holders(runs)| + |woken|
  {
    DistinctCount(woken);
    var added := Elements(woken);
    assert Holders(runs) !! added;
    assert Holders(MarkAdmitted(runs, woken)) == Holders(runs) + added;
  }

  lemma DistinctParts(q: seq<nat>, k: nat)
    requires Distinct(q) && k <= |q|
    ensures Distinct(q[..k]) && Distinct(q[k..])
    ensures forall x :: x in q[..k] ==> x in q && x !in q[k..]
    ensures forall x :: x in q[k..] ==> x in q
    ensures forall x :: x in q ==> x in q[..k] || x in q[k..]
  {
    forall i, j | 0 <= i < j < |q[k..]| ensures q[k..][i] != q[k..][j] { assert q[i + k] != q[j + k]; }
    assert q == q[..k] + q[k..];
  }

  // ---------------------------------------------------------------- the parts of a step

  lemma WakeKeeps(cfg: Config, s: Batch)
    requires RunsOk(cfg, s.runs) && WindowOk(cfg, s)
    ensures Core(cfg, WakeBatch(s))
  {
    var w, t := s.window, WakeBatch(s);
    var k := WakeCount(w);
    DistinctParts(w.waiters, k);
    HoldersMarked(s.runs, Woken(w));
    forall i: nat | i < |s.runs| ensures RunOk(cfg, i, t.runs[i]) {
      assert RunOk(cfg, i, s.runs[i]);
    }
  }

  lemma RunsReplaced(cfg: Config, runs: seq<Run>, i: nat, r: Run)
    requires RunsOk(cfg, runs) && i < |runs| && RunOk(cfg, i, r)
    ensures RunsOk(cfg, runs[i := r])
  {
  }

  lemma QueueReplaced(waiters: seq<nat>, runs: seq<Run>, i: nat, r: Run)
    requires QueueOk(waiters, runs) && i < |runs| && runs[i].phase != Queued && r.phase != Queued
    ensures QueueOk(waiters, runs[i := r])
  {
  }

  /** Replacing a task that neither holds a slot nor queues by another such task. */
  lemma ReplaceKeeps(cfg: Config, s: Batch, i: nat, r: Run)
    requires Core(cfg, s) && i < |s.runs| && RunOk(cfg, i, r)
    requires !Holding(s.runs[i]) && s.runs[i].phase != Queued
    requires !Holding(r) && r.phase != Queued
    ensures Core(cfg, s.(runs := s.runs[i := r]))
  {
    RunsReplaced(cfg, s.runs, i, r);
    QueueReplaced(s.window.waiters, s.runs, i, r);
    HoldersUpdate(s.runs, i, r);
    assert i !in Holders(s.runs);
  }

  lemma LeaveSlotKeeps(cfg: Config, s: Batch, i: nat)
    requires Core(cfg, s) && InPhase(s, i, Running)
    ensures Core(cfg, LeaveSlot(s, i))
    ensures LeaveSlot(s, i).runs[i] == s.runs[i].(phase := Deciding)
  {
    var freed := To(s, i, Deciding).(window := Freed(s.window));
    HoldersUpdate(s.runs, i, freed.runs[i]);
    assert i in Holders(s.runs);
    WakeKeeps(cfg, freed);
  }

  lemma DecideKeeps(cfg: Config, s: Batch, i: nat, past: bool)
    requires Core(cfg, s) && i < |s.runs|
    requires !Holding(s.runs[i]) && s.runs[i].phase != Queued
    requires s.runs[i].attempts <= s.runs[i].rateLimited + 1
    ensures Core(cfg, Decide(cfg, s, i, past))
  {
    var t := Decide(cfg, s, i, past);
    if past {
      ReplaceKeeps(cfg, s, i, t.runs[i]);
    } else {
      HoldersUpdate(s.runs, i, t.runs[i]);
      assert i !in Holders(s.runs) && i !in s.window.waiters;
    }
  }

  lemma BackpressureKeeps(cfg: Config, s: Batch, i: nat)
    requires Core(cfg, s) && InPhase(s, i, Deciding)
    ensures Core(cfg, Backpressure(cfg, s, i))
  {
    assert RunOk(cfg, i, s.runs[i]);
    var narrowed := s.(window := Narrow(s.window));
    assert Core(cfg, narrowed);
    ReplaceKeeps(cfg, narrowed, i, Backpressure(cfg, s, i).runs[i]);
  }

  lemma FinishKeeps(cfg: Config, s: Batch, i: nat, out: Outcome)
    requires Core(cfg, s) && InPhase(s, i, Deciding)
    ensures Core(cfg, Finish(cfg, s, i, out))
  {
    var raised := s.(window := Raised(s.window, cfg.Ceiling()));
    WakeKeeps(cfg, raised);
    assert i !in s.window.waiters;
    assert RunOk(cfg, i, s.runs[i]);
    var t := WakeBatch(raised);
    ReplaceKeeps(cfg, t, i, t.runs[i].(phase := Done(SettledResult(cfg, i, out, s.runs[i].attempts))));
  }

  lemma AfterRunKeeps(cfg: Config, s: Batch, i: nat, out: Outcome, past: bool)
    requires Core(cfg, s) && InPhase(s, i, Deciding)
    ensures Core(cfg, AfterRun(cfg, s, i, out, past))
  {
    if IsRateLimitedOutcome(cfg, out) {
      BackpressureKeeps(cfg, s, i);
    } else if ShouldRetryAttempt(cfg, out.failure, s.runs[i].attempts) {
      DecideKeeps(cfg, s, i, past);
    } else {
      FinishKeeps(cfg, s, i, out);
    }
  }

  lemma LaunchKeeps(cfg: Config, s: Batch, i: nat)
    requires Core(cfg, s) && InPhase(s, i, Admitted)
    ensures Core(cfg, s.(runs := s.runs[i := Run(Running, s.runs[i].attempts + 1, s.runs[i].rateLimited)]))
  {
    var r := Run(Running, s.runs[i].attempts + 1, s.runs[i].rateLimited);
    RunsReplaced(cfg, s.runs, i, r);
    QueueReplaced(s.window.waiters, s.runs, i, r);
    HoldersUpdate(s.runs, i, r);
    assert i in Holders(s.runs) && Holders(s.runs) + {i} == Holders(s.runs);
  }

  /** Which tasks a step touches: its own, and the queued ones it wakes. */
  ghost predicate OthersFramed(s: Batch, t: Batch, i: nat) {
    && |t.runs| == |s.runs|
    && forall j: nat :: j < |s.runs| && j != i ==>
       t.runs[j] == s.runs[j] || (s.runs[j].phase == Queued && t.runs[j] == s.runs[j].(phase := Admitted))
  }

  function Actor(s: Batch, step: Step): nat {
    match step
    case Begin(_) => s.started
    case Launch(i) => i
    case Complete(i, _, _) => i
    case Throw(i) => i
    case BackoffEnd(i, _) => i
    case BackoffThrow(i) => i
  }

  lemma WakeFrames(s: Batch, i: nat)
    requires QueueOk(s.window.waiters, s.runs) && i !in s.window.waiters
    ensures OthersFramed(s, WakeBatch(s), i)
    ensures i < |s.runs| ==> WakeBatch(s).runs[i] == s.runs[i]
  {
    assert forall j :: j in Woken(s.window) ==> j in s.window.waiters;
  }

  lemma LeaveSlotFrames(cfg: Config, s: Batch, i: nat)
    requires Core(cfg, s) && InPhase(s, i, Running)
    ensures OthersFramed(s, LeaveSlot(s, i), i)
  {
    WakeFrames(To(s, i, Deciding).(window := Freed(s.window)), i);
  }

  lemma AfterRunFrames(cfg: Config, s: Batch, i: nat, out: Outcome, past: bool)
    requires Core(cfg, s) && InPhase(s, i, Deciding)
    ensures OthersFramed(s, AfterRun(cfg, s, i, out, past), i)
    ensures var p := AfterRun(cfg, s, i, out, past).runs[i].phase; !p.Fresh? && !p.Deciding?
  {
    WakeFrames(s.(window := Raised(s.window, cfg.Ceiling())), i);
  }

  lemma StepFrames(cfg: Config, s: Batch, step: Step)
    requires Inv(cfg, s) && Enabled(s, step)
    ensures OthersFramed(s, Next(cfg, s, step), Actor(s, step))
    ensures Actor(s, step) < |s.runs|
    ensures var p := Next(cfg, s, step).runs[Actor(s, step)].phase; !p.Fresh? && !p.Deciding?
  {
    match step
    case Complete(i, out, past) =>
      LeaveSlotKeeps(cfg, s, i);
      LeaveSlotFrames(cfg, s, i);
      AfterRunFrames(cfg, LeaveSlot(s, i), i, out, past);
    case Throw(i) =>
      LeaveSlotFrames(cfg, s, i);
    case _ =>
  }

  lemma StartedStep(cfg: Config, s: Batch, step: Step)
    requires Inv(cfg, s) && Enabled(s, step)
    ensures Next(cfg, s, step).started == if step.Begin? then s.started + 1 else s.started
    ensures !step.Begin? ==> s.started == |s.runs|
  {
  }

  lemma CoreSettle(cfg: Config, s: Batch, step: Step)
    requires Inv(cfg, s) && Enabled(s, step) && (step.Complete? || step.Throw?)
    ensures Core(cfg, Next(cfg, s, step))
  {
    var i, left := step.i, LeaveSlot(s, step.i);
    LeaveSlotKeeps(cfg, s, i);
    if step.Complete? {
      AfterRunKeeps(cfg, left, i, step.out, step.past);
    } else {
      assert RunOk(cfg, i, s.runs[i]);
      ReplaceKeeps(cfg, left, i, s.runs[i].(phase := Failed));
    }
  }

  lemma CoreStep(cfg: Config, s: Batch, step: Step)
    requires Inv(cfg, s) && Enabled(s, step)
    ensures Core(cfg, Next(cfg, s, step))
  {
    if step.Complete? || step.Throw? {
      CoreSettle(cfg, s, step);
    } else if step.Launch? {
      LaunchKeeps(cfg, s, step.i);
    } else if step.BackoffThrow? {
      assert RunOk(cfg, step.i, s.runs[step.i]);
      ReplaceKeeps(cfg, s, step.i, s.runs[step.i].(phase := Failed));
    } else {
      var i := Actor(s, step);
      assert RunOk(cfg, i, s.runs[i]);
      DecideKeeps(cfg, s, i, step.past);
    }
  }

  lemma InvStep(cfg: Config, s: Batch, step: Step)
    requires Inv(cfg, s) && Enabled(s, step)
    ensures Inv(cfg, Next(cfg, s, step))
  {
    CoreStep(cfg, s, step);
    StepFrames(cfg, s, step);
    StartedStep(cfg, s, step);
    var t, a := Next(cfg, s, step), Actor(s, step);
    forall j: nat | j < |t.runs|
      ensures (t.runs[j].phase.Fresh? <==> t.started <= j) && !t.runs[j].phase.Deciding?
    {
      if j != a { assert t.runs[j] == s.runs[j] || s.runs[j].phase == Queued; }
    }
  }

  lemma InitInv(cfg: Config)
    ensures Inv(cfg, Init(cfg))
  {
    assert Holders(Init(cfg).runs) == {};
  }
}
