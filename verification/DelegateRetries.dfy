/** When a delegate is launched again, deferred or done, in terms of what its last attempt answered (src/delegate-serial.ts). */
module DelegateRetries {
  import opened Wrappers
  import opened DelegateScheduler
  import opened DelegateSafety
  import opened DelegateRuns

  /** The failure's text, or the outcome's own, is one of the transient upstream limits. */
  predicate RateLimited(cfg: Config, out: Outcome) {
    || (out.failure.Some? && out.failure.value.error != "" && cfg.transient(out.failure.value.error))
    || (out.error.Some? && out.error.value != "" && cfg.transient(out.error.value))
  }

  /** An interruption that can be retried, the child confirmed stopped: unknown is not enough. */
  predicate ConfirmedStop(out: Outcome) {
    && out.failure.Some? && out.failure.value.status == Interrupted && out.failure.value.retryable
    && out.failure.value.childStillRunning == Some(false)
  }

  function Deferral(cfg: Config, i: nat, attempts: nat): DelegateResult
    requires i < |cfg.tasks|
  {
    DelegateResult(runId := DeferredRun(i), fingerprint := cfg.fingerprint(cfg.tasks[i].text), name := cfg.tasks[i].name,
                   status := Deferred, summary := None, output := None, error := Some(cfg.deferredNotice), attempts := attempts)
  }

  function Settlement(cfg: Config, i: nat, out: Outcome, attempts: nat): DelegateResult
    requires i < |cfg.tasks|
  {
    DelegateResult(runId := ChildRun(out.runId), fingerprint := cfg.fingerprint(cfg.tasks[i].text), name := cfg.tasks[i].name,
                   status := Ran(out.status), summary := out.summary, output := out.output, error := out.error, attempts := attempts)
  }

  /**
   How a task goes on after an attempt.  A rate limit sends it to back off, or defers it once its allowance is
   spent; a confirmed stop of the first attempt gives it one more, unless the deadline has passed; anything else
   is its result.
   */
  predicate GoesOn(cfg: Config, i: nat, run: Run, out: Outcome, past: bool, next: Run)
    requires i < |cfg.tasks|
  {
    && next.attempts == run.attempts
    && if RateLimited(cfg, out) then
         if run.rateLimited >= cfg.Allowance() then next.phase == Done(Deferral(cfg, i, run.attempts))
         else next.phase == BackingOff && next.rateLimited == run.rateLimited + 1
       else
         && next.rateLimited == run.rateLimited
         && if ConfirmedStop(out) && run.attempts < 2 then
              if past then next.phase == Done(Deferral(cfg, i, run.attempts)) else next.phase == Admitted || next.phase == Queued
            else next.phase == Done(Settlement(cfg, i, out, run.attempts))
  }

  /** The test of one attempt by itself: a confirmed stop of the first attempt, whose text is no rate limit. */
  lemma RetryExactly(cfg: Config, out: Outcome, attempts: nat)
    ensures ShouldRetryAttempt(cfg, out.failure, attempts) <==>
              ConfirmedStop(out) && attempts < 2 && (out.failure.value.error == "" || !cfg.transient(out.failure.value.error))
  {
  }

  lemma FinishExactly(cfg: Config, s: Batch, i: nat, out: Outcome)
    requires Core(cfg, s) && InPhase(s, i, Deciding)
    ensures Finish(cfg, s, i, out).runs[i] == s.runs[i].(phase := Done(Settlement(cfg, i, out, s.runs[i].attempts)))
  {
    assert i !in s.window.waiters;
  }

  lemma AfterRunExactly(cfg: Config, s: Batch, i: nat, out: Outcome, past: bool)
    requires Core(cfg, s) && InPhase(s, i, Deciding)
    ensures GoesOn(cfg, i, s.runs[i], out, past, AfterRun(cfg, s, i, out, past).runs[i])
  {
    FinishExactly(cfg, s, i, out);
  }

  /** What becomes of a task when one of its attempts ends, in any state of the batch. */
  lemma CompleteExactly(cfg: Config, s: Batch, i: nat, out: Outcome, past: bool)
    requires Inv(cfg, s) && Enabled(s, Complete(i, out, past))
    ensures GoesOn(cfg, i, s.runs[i], out, past, Next(cfg, s, Complete(i, out, past)).runs[i])
  {
    LeaveSlotKeeps(cfg, s, i);
    AfterRunExactly(cfg, LeaveSlot(s, i), i, out, past);
  }

  // ---------------------------------------------------------------- over whole runs

  /** What lets a task be launched once more. */
  predicate Cause(cfg: Config, out: Outcome) { RateLimited(cfg, out) || ConfirmedStop(out) }

  /** A task on its way to another launch has such a last outcome, if it was launched before. */
  predicate Caused(cfg: Config, run: Run, last: Option<Outcome>) {
    (run.phase.Queued? || run.phase.Admitted? || run.phase.BackingOff?) && run.attempts > 0 ==>
      last.Some? && Cause(cfg, last.value)
  }

  function LastAfter(last: Option<Outcome>, step: Step, i: nat): Option<Outcome> {
    if step.Complete? && step.i == i then Some(step.out) else last
  }

  lemma DecideStaysCaused(cfg: Config, s: Batch, i: nat, past: bool, last: Option<Outcome>)
    requires i < |s.runs| == |cfg.tasks| && (s.runs[i].attempts == 0 || (s.runs[i].phase.BackingOff? && Caused(cfg, s.runs[i], last)))
    ensures Caused(cfg, Decide(cfg, s, i, past).runs[i], last)
  {
    DecideMoves(cfg, s, i, past);
  }

  lemma StepStaysCaused(cfg: Config, s: Batch, step: Step, i: nat, last: Option<Outcome>)
    requires Inv(cfg, s) && Enabled(s, step) && i < |s.runs| && Caused(cfg, s.runs[i], last)
    ensures Caused(cfg, Next(cfg, s, step).runs[i], LastAfter(last, step, i))
  {
    if i == Actor(s, step) {
      match step
      case Begin(past) =>
        assert RunOk(cfg, i, s.runs[i]);
        DecideStaysCaused(cfg, s, i, past, last);
      case BackoffEnd(_, past) => DecideStaysCaused(cfg, s, i, past, last);
      case Complete(_, out, past) => CompleteExactly(cfg, s, i, out, past);
      case _ =>
    } else {
      StepFrames(cfg, s, step);
    }
  }

  lemma {:induction false} RunStaysCaused(cfg: Config, s: Batch, steps: seq<Step>, i: nat, last: Option<Outcome>)
    requires Inv(cfg, s) && ValidRun(cfg, s, steps) && i < |s.runs| && Caused(cfg, s.runs[i], last)
    ensures Caused(cfg, Final(cfg, s, steps).runs[i], if LastOutcome(steps, i).Some? then LastOutcome(steps, i) else last)
    decreases |steps|
  {
    if steps != [] {
      InvStep(cfg, s, steps[0]);
      StepStaysCaused(cfg, s, steps[0], i, last);
      RunStaysCaused(cfg, Next(cfg, s, steps[0]), steps[1..], i, LastAfter(last, steps[0], i));
    }
  }

  /** In every run, a task is launched again only after a rate limit or a confirmed stop: never beside a child that may still run. */
  lemma RelaunchHasCause(cfg: Config, steps: seq<Step>, i: nat)
    requires ValidRun(cfg, Init(cfg), steps) && Enabled(Final(cfg, Init(cfg), steps), Launch(i)) && Launches(steps, i) > 0
    ensures var last := LastOutcome(steps, i);
            last.Some? && (RateLimited(cfg, last.value) || ConfirmedStop(last.value))
  {
    InitInv(cfg);
    RunStaysCaused(cfg, Init(cfg), steps, i, None);
    ResultsAreTruthful(cfg, Init(cfg), steps, i);
  }

  /** What a batch does when its options are left out, and what the options may ask for. */
  lemma BatchDefaults(cfg: Config)
    ensures 1 <= cfg.Ceiling() && (cfg.tasks != [] ==> cfg.Ceiling() <= |cfg.tasks|)
    ensures cfg.initialConcurrency.None? && |cfg.tasks| >= 32 ==> cfg.Ceiling() == 32
    ensures cfg.initialConcurrency.Some? && 1 <= cfg.initialConcurrency.value <= |cfg.tasks| ==> cfg.Ceiling() == cfg.initialConcurrency.value
    ensures cfg.rateLimitRetries.None? ==> cfg.Allowance() == 4
    ensures cfg.rateLimitRetries.Some? && cfg.rateLimitRetries.value >= 0 ==> cfg.Allowance() == cfg.rateLimitRetries.value
    ensures cfg.rateLimitRetries.Some? && cfg.rateLimitRetries.value < 0 ==> cfg.Allowance() == 0
  {
  }
}
