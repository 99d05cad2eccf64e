/**
 The adaptive parallel delegate scheduler (src/delegate-serial.ts).

 A batch of tasks shares one admission window.  Every stretch of code between two
 `await`s is one atomic step of the state machine below; the clock, the backoff and the
 tasks themselves are the environment and appear as parameters of the steps.
 */
module DelegateScheduler {
  import opened Wrappers

  const INITIAL_CONCURRENCY := 32
  const MIN_CONCURRENCY := 1
  const RATE_LIMIT_RETRIES := 4

  // ---------------------------------------------------------------- data

  /** `name` is the optional label a result must carry (`label` is a Dafny keyword). */
  datatype Task = Task(name: Option<string>, text: string)

  datatype RunStatus = Completed | Error | Aborted | Interrupted

  datatype Failure = Failure(status: RunStatus, error: string, retryable: bool, childStillRunning: Option<bool>)

  datatype Outcome = Outcome(runId: string, status: RunStatus, summary: Option<string>, output: Option<string>,
                             error: Option<string>, failure: Option<Failure>)

  /** A child's own run id, or the placeholder of a task that was never launched to an end. */
  datatype RunId = ChildRun(id: string) | DeferredRun(index: nat)

  datatype ResultStatus = Ran(run: RunStatus) | Deferred

  datatype DelegateResult = DelegateResult(runId: RunId, fingerprint: string, name: Option<string>,
                                           status: ResultStatus, summary: Option<string>, output: Option<string>,
                                           error: Option<string>, attempts: nat)

  /** The call's arguments.  The task hash, the text classifier and the notice are parameters. */
  datatype Config = Config(tasks: seq<Task>, initialConcurrency: Option<int>, rateLimitRetries: Option<int>,
                           fingerprint: string -> string, transient: string -> bool, deferredNotice: string)
  {
    function Ceiling(): int {
      var wanted := if initialConcurrency.Some? then initialConcurrency.value else INITIAL_CONCURRENCY;
      Max(MIN_CONCURRENCY, Min(wanted, |tasks|))
    }

    function Retries(): int {
      if rateLimitRetries.Some? then rateLimitRetries.value else RATE_LIMIT_RETRIES
    }

    /** How many rate-limited attempts a task survives: a negative setting allows none. */
    function Allowance(): nat { Max(0, Retries()) }
  }

  // ---------------------------------------------------------------- retry predicates

  predicate IsTransient(cfg: Config, error: Option<string>) {
    error.Some? && error.value != "" && cfg.transient(error.value)
  }

  predicate IsRateLimitFailure(cfg: Config, failure: Option<Failure>) {
    failure.Some? && IsTransient(cfg, Some(failure.value.error))
  }

  predicate IsRateLimitedOutcome(cfg: Config, out: Outcome) {
    IsRateLimitFailure(cfg, out.failure) || IsTransient(cfg, out.error)
  }

  predicate ShouldRetry(failure: Failure, attempts: nat) {
    failure.status == Interrupted && failure.retryable && failure.childStillRunning == Some(false) && attempts < 2
  }

  predicate ShouldRetryAttempt(cfg: Config, failure: Option<Failure>, attempts: nat) {
    failure.Some? && !IsRateLimitFailure(cfg, failure) && ShouldRetry(failure.value, attempts)
  }

  // ---------------------------------------------------------------- the admission window

  datatype Window = Window(limit: int, active: int, waiters: seq<nat>)

  /** How many queued tasks a wake-up loop lets in. */
  function WakeCount(w: Window): (k: nat)
    ensures k <= |w.waiters|
  {
    Max(0, Min(w.limit - w.active, |w.waiters|))
  }

  function Woken(w: Window): seq<nat> { w.waiters[..WakeCount(w)] }

  function Wake(w: Window): Window {
    w.(active := w.active + WakeCount(w), waiters := w.waiters[WakeCount(w)..])
  }

  function Freed(w: Window): Window { w.(active := w.active - 1) }

  function Admit(w: Window, i: nat): Window {
    if w.active < w.limit then w.(active := w.active + 1) else w.(waiters := w.waiters + [i])
  }

  function Narrow(w: Window): Window { w.(limit := Max(MIN_CONCURRENCY, w.limit / 2)) }

  function Raised(w: Window, ceiling: int): Window { if w.limit < ceiling then w.(limit := w.limit + 1) else w }

  /** The window object the tasks share.  `resumed` logs the promises its wake-ups resolved, in order. */
  class AdmissionState {
    var limit: int
    var active: int
    var waiters: seq<nat>
    ghost var resumed: seq<nat>

    ghost function Model(): Window reads this { Window(limit, active, waiters) }

    constructor (ceiling: int)
      ensures Model() == Window(ceiling, 0, []) && resumed == []
    {
      limit, active, waiters, resumed := ceiling, 0, [], [];
    }

    method AdmitTask(i: nat) returns (now: bool)
      modifies this
      ensures Model() == Admit(old(Model()), i)
      ensures now == (old(active) < old(limit)) && resumed == old(resumed)
    {
      if active < limit {
        active := active + 1;
        return true;
      }
      waiters := waiters + [i];
      return false;
    }

    method WakeWaiters()
      modifies this
      ensures Model() == Wake(old(Model()))
      ensures resumed == old(resumed) + Woken(old(Model()))
    {
      ghost var k := 0;
      while active < limit && waiters != []
        invariant 0 <= k <= |old(waiters)| && waiters == old(waiters)[k..]
        invariant limit == old(limit) && active == old(active) + k
        invariant k > 0 ==> active <= limit
        invariant resumed == old(resumed) + old(waiters)[..k]
        decreases |waiters|
      {
        resumed := resumed + [waiters[0]];
        active := active + 1;
        waiters := waiters[1..];
        k := k + 1;
      }
      assert k == WakeCount(old(Model()));
    }

    method Release()
      modifies this
      ensures Model() == Wake(Freed(old(Model())))
      ensures resumed == old(resumed) + Woken(Freed(old(Model())))
    {
      active := active - 1;
      WakeWaiters();
    }

    method NarrowWindow()
      modifies this
      ensures Model() == Narrow(old(Model())) && resumed == old(resumed)
    {
      limit := Max(MIN_CONCURRENCY, limit / 2);
    }

    method Widen(ceiling: int)
      modifies this
      ensures Model() == Wake(Raised(old(Model()), ceiling))
      ensures resumed == old(resumed) + Woken(Raised(old(Model()), ceiling))
    {
      if limit < ceiling { limit := limit + 1; }
      WakeWaiters();
    }
  }

  // ---------------------------------------------------------------- the batch

  /** `Deciding` occurs only inside a step: a task between leaving its slot and its next await. */
  datatype Phase =
    | Fresh | Deciding | Queued | Admitted | Running | BackingOff
    | Done(result: DelegateResult) | Failed

  datatype Run = Run(phase: Phase, attempts: nat, rateLimited: nat)

  datatype Batch = Batch(window: Window, runs: seq<Run>, started: nat)

  /** The runs start in index order before anything else happens, hence no index on `Begin`. */
  datatype Step =
    | Begin(past: bool)
    | Launch(i: nat)
    | Complete(i: nat, out: Outcome, past: bool)
    | Throw(i: nat)
    | BackoffEnd(i: nat, past: bool)
    | BackoffThrow(i: nat)

  function Init(cfg: Config): Batch {
    Batch(Window(cfg.Ceiling(), 0, []), seq(|cfg.tasks|, _ => Run(Fresh, 0, 0)), 0)
  }

  predicate InPhase(s: Batch, i: nat, p: Phase) { i < |s.runs| && s.runs[i].phase == p }

  predicate Enabled(s: Batch, step: Step) {
    match step
    case Begin(_) => s.started < |s.runs|
    case Launch(i) => s.started == |s.runs| && InPhase(s, i, Admitted)
    case Complete(i, _, _) => s.started == |s.runs| && InPhase(s, i, Running)
    case Throw(i) => s.started == |s.runs| && InPhase(s, i, Running)
    case BackoffEnd(i, _) => s.started == |s.runs| && InPhase(s, i, BackingOff)
    case BackoffThrow(i) => s.started == |s.runs| && InPhase(s, i, BackingOff)
  }

  function To(s: Batch, i: nat, p: Phase): Batch
    requires i < |s.runs|
  {
    s.(runs := s.runs[i := s.runs[i].(phase := p)])
  }

  function MarkAdmitted(runs: seq<Run>, woken: seq<nat>): seq<Run> {
    seq(|runs|, i requires 0 <= i < |runs| => if i in woken then runs[i].(phase := Admitted) else runs[i])
  }

  function WakeBatch(s: Batch): (t: Batch)
    ensures |t.runs| == |s.runs| && t.window.limit == s.window.limit
  {
    s.(window := Wake(s.window), runs := MarkAdmitted(s.runs, Woken(s.window)))
  }

  function LeaveSlot(s: Batch, i: nat): (t: Batch)
    requires i < |s.runs|
    ensures |t.runs| == |s.runs| && t.window.limit == s.window.limit && t.runs[i].attempts == s.runs[i].attempts
  {
    WakeBatch(To(s, i, Deciding).(window := Freed(s.window)))
  }

  function WidenBatch(s: Batch, ceiling: int): Batch { WakeBatch(s.(window := Raised(s.window, ceiling))) }

  function DeferredResult(cfg: Config, i: nat, attempts: nat): DelegateResult
    requires i < |cfg.tasks|
  {
    DelegateResult(DeferredRun(i), cfg.fingerprint(cfg.tasks[i].text), cfg.tasks[i].name, Deferred, None, None,
                   Some(cfg.deferredNotice), attempts)
  }

  function SettledResult(cfg: Config, i: nat, out: Outcome, attempts: nat): DelegateResult
    requires i < |cfg.tasks|
  {
    DelegateResult(ChildRun(out.runId), cfg.fingerprint(cfg.tasks[i].text), cfg.tasks[i].name, Ran(out.status),
                   out.summary, out.output, out.error, attempts)
  }

  /** The head of the loop: the deadline test, then `admit`. */
  function Decide(cfg: Config, s: Batch, i: nat, past: bool): Batch
    requires i < |s.runs| == |cfg.tasks|
  {
    if past then To(s, i, Done(DeferredResult(cfg, i, s.runs[i].attempts)))
    else To(s, i, if s.window.active < s.window.limit then Admitted else Queued).(window := Admit(s.window, i))
  }

  /** A rate limit: narrow the window, then give up or back off. */
  function Backpressure(cfg: Config, s: Batch, i: nat): Batch
    requires i < |s.runs| == |cfg.tasks|
  {
    var run := s.runs[i];
    s.(window := Narrow(s.window),
       runs := s.runs[i := if run.rateLimited >= cfg.Retries()
                           then run.(phase := Done(DeferredResult(cfg, i, run.attempts)))
                           else Run(BackingOff, run.attempts, run.rateLimited + 1)])
  }

  /** Any other end: widen the window, then return the outcome. */
  function Finish(cfg: Config, s: Batch, i: nat, out: Outcome): Batch
    requires i < |s.runs| == |cfg.tasks|
  {
    To(WidenBatch(s, cfg.Ceiling()), i, Done(SettledResult(cfg, i, out, s.runs[i].attempts)))
  }

  function AfterRun(cfg: Config, s: Batch, i: nat, out: Outcome, past: bool): Batch
    requires i < |s.runs| == |cfg.tasks|
  {
    if IsRateLimitedOutcome(cfg, out) then Backpressure(cfg, s, i)
    else if ShouldRetryAttempt(cfg, out.failure, s.runs[i].attempts) then Decide(cfg, s, i, past)
    else Finish(cfg, s, i, out)
  }

  function Next(cfg: Config, s: Batch, step: Step): (t: Batch)
    requires |s.runs| == |cfg.tasks| && Enabled(s, step)
    ensures |t.runs| == |s.runs|
  {
    match step
    case Begin(past) => Decide(cfg, s, s.started, past).(started := s.started + 1)
    case Launch(i) => s.(runs := s.runs[i := Run(Running, s.runs[i].attempts + 1, s.runs[i].rateLimited)])
    case Complete(i, out, past) => AfterRun(cfg, LeaveSlot(s, i), i, out, past)
    case Throw(i) => To(LeaveSlot(s, i), i, Failed)
    case BackoffEnd(i, past) => Decide(cfg, s, i, past)
    case BackoffThrow(i) => To(s, i, Failed)
  }
}
