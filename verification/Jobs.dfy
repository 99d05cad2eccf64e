/** Recurring jobs: input validation, the atomic claim of a run, and interleaved statements (src/jobs.ts). */
module Jobs {
  import opened Wrappers
  import opened Utf16

  const MIN_CADENCE_SECS := 60
  const MAX_CADENCE_SECS := 60 * 60 * 24 * 30
  const MAX_PROMPT_CHARS := 4000
  const MAX_NAME_CHARS := 200

  datatype SessionId = SessionId(text: Text)

  datatype ThreadMode = SameSession | NewSessionPerRun | SpecificSession

  datatype Status = Active | Paused | Exhausted

  // ---------------------------------------------------------------- validation

  datatype Number = Int(n: int) | NotInteger

  datatype ModeText = Mode(mode: ThreadMode) | UnknownMode

  /** What a caller sends; every field may be missing. */
  datatype JobInput = JobInput(sessionId: Option<Text>, name: Option<Text>, prompt: Option<Text>,
                               cadenceSecs: Option<Number>, maxRuns: Option<Number>, threadMode: Option<ModeText>)

  datatype JobSpec = JobSpec(session: SessionId, name: Text, prompt: Text, cadenceSecs: int, maxRuns: Option<nat>, mode: ThreadMode)

  datatype InputError = BadSession | BadName | BadPrompt | BadCadence | BadMaxRuns | BadMode

  function OrEmpty(t: Option<Text>): Text { if t.Some? then t.value else [] }

  function ValidateJobInput(input: JobInput): Result<JobSpec, InputError> {
    var session, name, prompt := Trim(OrEmpty(input.sessionId)), Trim(OrEmpty(input.name)), Trim(OrEmpty(input.prompt));
    if session == [] then Err(BadSession)
    else if name == [] then Err(BadName)
    else if prompt == [] || |prompt| > MAX_PROMPT_CHARS then Err(BadPrompt)
    else if input.cadenceSecs.None? || input.cadenceSecs.value.NotInteger? then Err(BadCadence)
    else if !(MIN_CADENCE_SECS <= input.cadenceSecs.value.n <= MAX_CADENCE_SECS) then Err(BadCadence)
    else if input.maxRuns.Some? && (input.maxRuns.value.NotInteger? || input.maxRuns.value.n < 1) then Err(BadMaxRuns)
    else if input.threadMode == Some(UnknownMode) then Err(BadMode)
    else
      Ok(JobSpec(SessionId(session), Slice(name, MAX_NAME_CHARS), Slice(prompt, MAX_PROMPT_CHARS), input.cadenceSecs.value.n,
                 if input.maxRuns.Some? then Some(input.maxRuns.value.n) else None,
                 if input.threadMode.Some? then input.threadMode.value.mode else SameSession))
  }

  ghost predicate ValidSpec(s: JobSpec) {
    && s.session.text != [] && Trimmed(s.session.text)
    && s.name != [] && |s.name| <= 200 && !IsSpace(s.name[0])
    && s.prompt != [] && |s.prompt| <= 4000 && Trimmed(s.prompt)
    && 60 <= s.cadenceSecs <= 30 * 24 * 60 * 60
    && (s.maxRuns.Some? ==> s.maxRuns.value >= 1)
  }

  /** Nothing was sent but spaces, if anything. */
  ghost predicate Empty(t: Option<Text>) { t.None? || Trim(t.value) == [] }

  ghost predicate CadenceOk(c: Option<Number>) { c.Some? && c.value.Int? && 60 <= c.value.n <= 30 * 24 * 60 * 60 }

  ghost predicate LimitOk(n: Option<Number>) { n.Some? ==> n.value.Int? && n.value.n >= 1 }

  /** The fields are looked at in this order, and the first that is not in order is the one complained of. */
  lemma RefusedExactly(input: JobInput)
    ensures var r, promptOk := ValidateJobInput(input), !Empty(input.prompt) && |Trim(input.prompt.value)| <= 4000;
            if Empty(input.sessionId) then r == Err(BadSession)
            else if Empty(input.name) then r == Err(BadName)
            else if !promptOk then r == Err(BadPrompt)
            else if !CadenceOk(input.cadenceSecs) then r == Err(BadCadence)
            else if !LimitOk(input.maxRuns) then r == Err(BadMaxRuns)
            else if input.threadMode == Some(UnknownMode) then r == Err(BadMode)
            else r.Ok?
  {
    assert Trim([]) == [];
  }

  /** What is accepted is stored as sent, texts trimmed and the name cut; without a limit or a thread mode it runs on, in its own session. */
  lemma StoredExactly(input: JobInput)
    requires ValidateJobInput(input).Ok?
    ensures var spec, name := ValidateJobInput(input).value, Trim(input.name.value);
            && input.sessionId.Some? && spec.session.text == Trim(input.sessionId.value)
            && input.name.Some? && spec.name == (if |name| <= 200 then name else name[..200])
            && input.prompt.Some? && spec.prompt == Trim(input.prompt.value)
            && input.cadenceSecs == Some(Int(spec.cadenceSecs))
            && (if spec.maxRuns.Some? then input.maxRuns == Some(Int(spec.maxRuns.value)) else input.maxRuns == None)
            && (if input.threadMode.Some? then input.threadMode == Some(Mode(spec.mode)) else spec.mode == SameSession)
  {
    assert input.threadMode.Some? ==> input.threadMode.value != UnknownMode;
  }

  lemma ValidatedIsValid(input: JobInput)
    requires ValidateJobInput(input).Ok?
    ensures ValidSpec(ValidateJobInput(input).value)
  {
    TrimIsTrimmed(OrEmpty(input.sessionId));
    TrimIsTrimmed(OrEmpty(input.name));
    TrimIsTrimmed(OrEmpty(input.prompt));
  }

  /** A stored job put through validation again, as an update that changes nothing does. */
  function AsInput(s: JobSpec): JobInput {
    JobInput(Some(s.session.text), Some(s.name), Some(s.prompt), Some(Int(s.cadenceSecs)),
             if s.maxRuns.Some? then Some(Int(s.maxRuns.value)) else None, Some(Mode(s.mode)))
  }

  /** Validation accepts a valid job again and changes nothing but a name cut just after a space. */
  lemma RevalidateKeeps(s: JobSpec)
    requires ValidSpec(s)
    ensures ValidateJobInput(AsInput(s)) == Ok(s.(name := Trim(s.name)))
    ensures ValidateJobInput(AsInput(s)) == Ok(s) <==> Trimmed(s.name)
  {
    TrimmedStays(s.session.text);
    TrimmedStays(s.prompt);
    TrimmedStays(s.name);
    TrimIsTrimmed(s.name);
    LeadingStays(s.name);
  }

  // ---------------------------------------------------------------- rows and the claim

  datatype Job = Job(spec: JobSpec, runCount: nat, status: Status, schedule: Option<nat>, key: Option<Key>)

  type Table = map<nat, Job>

  predicate HasRunsLeft(job: Job) { job.spec.maxRuns.None? || job.runCount < job.spec.maxRuns.value }

  function Remaining(job: Job): Option<nat> {
    if job.spec.maxRuns.None? then None else Some(Max(0, job.spec.maxRuns.value - job.runCount))
  }

  predicate Claimable(t: Table, id: nat) { id in t && t[id].status.Active? && HasRunsLeft(t[id]) }

  /** The one statement that counts a run; the last run allowed exhausts the job. */
  function Claimed(job: Job): Job {
    var next := job.(runCount := job.runCount + 1);
    if HasRunsLeft(next) then next else next.(status := Exhausted, schedule := None)
  }

  function Claim(t: Table, id: nat): Table { if Claimable(t, id) then t[id := Claimed(t[id])] else t }

  /**
   A claim takes effect exactly on an active job whose count is below its limit.  It counts one run, ends the
   job and its alarm exactly if that was the last one, and touches nothing else.
   */
  lemma ClaimExactly(t: Table, id: nat)
    ensures Claim(t, id) != t <==> id in t && t[id].status == Active && (t[id].spec.maxRuns.Some? ==> t[id].runCount < t[id].spec.maxRuns.value)
    ensures Claim(t, id).Keys == t.Keys && forall k :: k in t && k != id ==> Claim(t, id)[k] == t[k]
    ensures Claim(t, id) != t ==>
              var row, last := t[id], t[id].spec.maxRuns == Some(t[id].runCount + 1);
              Claim(t, id)[id] == Job(row.spec, row.runCount + 1, if last then Exhausted else Active, if last then None else row.schedule, row.key)
  {
    if Claimable(t, id) { assert Claim(t, id)[id].runCount != t[id].runCount; }
  }

  /** What is reported as remaining makes up the count to the limit, and is nothing once the count has reached it. */
  lemma RemainingExactly(job: Job)
    ensures Remaining(job).None? <==> job.spec.maxRuns.None?
    ensures job.spec.maxRuns.Some? && job.runCount <= job.spec.maxRuns.value ==>
              job.runCount + Remaining(job).value == job.spec.maxRuns.value
    ensures job.spec.maxRuns.Some? && job.runCount > job.spec.maxRuns.value ==> Remaining(job) == Some(0)
  {
  }

  // ---------------------------------------------------------------- interleaved statements

  /** Every statement that touches a job row, with whatever values a stale reader may have computed. */
  datatype Statement =
    | Insert(id: nat, spec: JobSpec, key: Option<Key>)
    | ClaimRun(id: nat)
    | Rewrite(id: nat, spec: JobSpec, status: Status, schedule: Option<nat>)
    | Activate(id: nat, schedule: Option<nat>)
    | Suspend(id: nat)
    | SetSchedule(id: nat, schedule: Option<nat>)
    | Remove(id: nat)

  function Apply(t: Table, s: Statement): Table {
    match s
    case Insert(id, spec, key) => if id in t then t else t[id := Job(spec, 0, Active, None, key)]
    case ClaimRun(id) => Claim(t, id)
    case Rewrite(id, spec, status, schedule) =>
      if id in t then t[id := t[id].(spec := spec, status := status, schedule := schedule)] else t
    case Activate(id, schedule) => if id in t then t[id := t[id].(status := Active, schedule := schedule)] else t
    case Suspend(id) => if id in t then t[id := t[id].(status := Paused, schedule := None)] else t
    case SetSchedule(id, schedule) => if id in t then t[id := t[id].(schedule := schedule)] else t
    case Remove(id) => map k | k in t && k != id :: t[k]
  }

  /** What each statement does to the row of its id, and that it touches no other. */
  lemma ApplyExactly(t: Table, s: Statement)
    ensures forall k :: k != s.id ==> (k in Apply(t, s) <==> k in t) && (k in t ==> Apply(t, s)[k] == t[k])
    ensures s.Insert? ==> s.id in Apply(t, s) && Apply(t, s)[s.id] == if s.id in t then t[s.id] else Job(s.spec, 0, Active, None, s.key)
    ensures !s.Insert? ==> (s.id in Apply(t, s) <==> s.id in t && !s.Remove?)
    ensures s.id in t ==>
              var row := t[s.id];
              && (s.Rewrite? ==> Apply(t, s)[s.id] == Job(s.spec, row.runCount, s.status, s.schedule, row.key))
              && (s.Activate? ==> Apply(t, s)[s.id] == Job(row.spec, row.runCount, Active, s.schedule, row.key))
              && (s.Suspend? ==> Apply(t, s)[s.id] == Job(row.spec, row.runCount, Paused, None, row.key))
              && (s.SetSchedule? ==> Apply(t, s)[s.id] == Job(row.spec, row.runCount, row.status, s.schedule, row.key))
  {
  }

  /** How many claims of this job succeed along an interleaving. */
  function ClaimsOf(t: Table, trace: seq<Statement>, id: nat): nat
    decreases |trace|
  {
    if trace == [] then 0
    else (if trace[0] == ClaimRun(id) && Claimable(t, id) then 1 else 0) + ClaimsOf(Apply(t, trace[0]), trace[1..], id)
  }

  /** No statement raises the job's limit above `limit`, and its id is not used for another job. */
  ghost predicate LimitStays(trace: seq<Statement>, id: nat, limit: nat) {
    forall i :: 0 <= i < |trace| ==>
      && (trace[i].Insert? ==> trace[i].id != id)
      && (trace[i].Rewrite? && trace[i].id == id ==>
            trace[i].spec.maxRuns.Some? && trace[i].spec.maxRuns.value <= limit)
  }

  /**
   However the statements of claims, updates, pauses, resumes and deletions interleave, and however
   stale the values they write, the claims of a job never pass its limit.
   */
  lemma {:induction false} ClaimsWithinLimit(t: Table, trace: seq<Statement>, id: nat, limit: nat)
    requires id in t ==> t[id].spec.maxRuns.Some? && t[id].spec.maxRuns.value <= limit
    requires LimitStays(trace, id, limit)
    ensures ClaimsOf(t, trace, id) <= if id in t then Max(0, limit - t[id].runCount) else 0
    decreases |trace|
  {
    if trace != [] {
      assert trace[0] == trace[0];
      forall i | 0 <= i < |trace[1..]| ensures trace[1..][i] == trace[i + 1] {}
      ClaimsWithinLimit(Apply(t, trace[0]), trace[1..], id, limit);
    }
  }

  /** In particular it is never claimed more often than it said it had runs remaining. */
  lemma ClaimsWithinRemaining(t: Table, trace: seq<Statement>, id: nat)
    requires id in t && t[id].spec.maxRuns.Some? && LimitStays(trace, id, t[id].spec.maxRuns.value)
    ensures ClaimsOf(t, trace, id) <= Remaining(t[id]).value
  {
    ClaimsWithinLimit(t, trace, id, t[id].spec.maxRuns.value);
  }

  function Claims(id: nat, n: nat): seq<Statement> { seq(n, _ => ClaimRun(id)) }

  /** Nobody interfering, a job can be claimed as often as it says it has runs remaining, and not once more. */
  lemma {:induction false} ClaimsReachLimit(t: Table, id: nat, n: nat)
    requires id in t && t[id].status.Active? && HasRunsLeft(t[id])
    ensures ClaimsOf(t, Claims(id, n), id) == if Remaining(t[id]).Some? then Min(n, Remaining(t[id]).value) else n
    decreases n
  {
    if n > 0 {
      assert Claims(id, n)[1..] == Claims(id, n - 1);
      var next := Claim(t, id);
      ClaimExactly(t, id);
      if next[id].status.Active? { ClaimsReachLimit(next, id, n - 1); } else { NoMoreClaims(next, id, n - 1); }
    }
  }

  lemma {:induction false} NoMoreClaims(t: Table, id: nat, n: nat)
    requires !Claimable(t, id)
    ensures ClaimsOf(t, Claims(id, n), id) == 0
  {
    if n > 0 {
      assert Claims(id, n)[1..] == Claims(id, n - 1);
      NoMoreClaims(t, id, n - 1);
    }
  }

  function Exec(t: Table, trace: seq<Statement>): Table
    decreases |trace|
  {
    if trace == [] then t else Apply(Exec(t, trace[..|trace| - 1]), trace[|trace| - 1])
  }

  /** A statement that would give an exhausted job another status, if its row is there. */
  predicate Revives(s: Statement, id: nat) {
    || (s.Rewrite? && s.id == id && !s.status.Exhausted?)
    || (s.Activate? && s.id == id)
    || (s.Suspend? && s.id == id)
  }

  predicate IsExhausted(t: Table, id: nat) { id in t ==> t[id].status.Exhausted? }

  /** Whenever the row is there, at any point of the trace, it is exhausted. */
  ghost predicate StaysExhausted(t: Table, trace: seq<Statement>, id: nat) {
    forall k: nat :: k <= |trace| ==> IsExhausted(Exec(t, trace[..k]), id)
  }

  /** No statement that meets the row tries to revive it. */
  ghost predicate Unrevived(t: Table, trace: seq<Statement>, id: nat) {
    forall k: nat :: k < |trace| ==> id in Exec(t, trace[..k]) ==> !Revives(trace[k], id)
  }

  lemma StatementKeepsExhausted(t: Table, s: Statement, id: nat)
    requires IsExhausted(t, id) && (s.Insert? ==> s.id != id)
    ensures IsExhausted(Apply(t, s), id) <==> (id in t ==> !Revives(s, id))
  {
  }

  lemma OneMoreStatement(t: Table, trace: seq<Statement>, k: nat)
    requires k < |trace|
    ensures Exec(t, trace[..k + 1]) == Apply(Exec(t, trace[..k]), trace[k])
  {
    assert trace[..k + 1][..k] == trace[..k];
  }

  lemma {:induction false} UnrevivedStays(t: Table, trace: seq<Statement>, id: nat, k: nat)
    requires IsExhausted(t, id) && Unrevived(t, trace, id) && k <= |trace|
    requires forall i :: 0 <= i < |trace| ==> trace[i].Insert? ==> trace[i].id != id
    ensures IsExhausted(Exec(t, trace[..k]), id)
  {
    if k == 0 {
      assert trace[..0] == [];
    } else {
      UnrevivedStays(t, trace, id, k - 1);
      OneMoreStatement(t, trace, k - 1);
      StatementKeepsExhausted(Exec(t, trace[..k - 1]), trace[k - 1], id);
    }
  }

  /**
   An exhausted job stays exhausted along an interleaving exactly if, while its row is there, no update
   writes it back with another status, and neither a resume nor a pause reaches it.
   */
  lemma ExhaustedStaysExactly(t: Table, trace: seq<Statement>, id: nat)
    requires IsExhausted(t, id)
    requires forall i :: 0 <= i < |trace| ==> trace[i].Insert? ==> trace[i].id != id
    ensures StaysExhausted(t, trace, id) <==> Unrevived(t, trace, id)
  {
    if Unrevived(t, trace, id) {
      forall k: nat | k <= |trace| ensures IsExhausted(Exec(t, trace[..k]), id) { UnrevivedStays(t, trace, id, k); }
    }
    if StaysExhausted(t, trace, id) {
      forall k: nat | k < |trace| && id in Exec(t, trace[..k]) ensures !Revives(trace[k], id) {
        OneMoreStatement(t, trace, k);
        assert IsExhausted(Exec(t, trace[..k + 1]), id);
        StatementKeepsExhausted(Exec(t, trace[..k]), trace[k], id);
      }
    }
  }

  /** An update that read the job before its last run can bring the exhausted job back as active; it still gets no run. */
  lemma StaleUpdateReactivates(t: Table, id: nat, schedule: Option<nat>)
    requires Claimable(t, id) && t[id].spec.maxRuns == Some(t[id].runCount + 1)
    ensures var stale := Rewrite(id, t[id].spec, t[id].status, schedule);
            && Apply(t, ClaimRun(id))[id].status.Exhausted?
            && Apply(Apply(t, ClaimRun(id)), stale)[id].status.Active?
            && forall more :: LimitStays(more, id, t[id].runCount + 1) ==>
                 ClaimsOf(Apply(Apply(t, ClaimRun(id)), stale), more, id) == 0
  {
    var stale := Rewrite(id, t[id].spec, t[id].status, schedule);
    forall more | LimitStays(more, id, t[id].runCount + 1)
      ensures ClaimsOf(Apply(Apply(t, ClaimRun(id)), stale), more, id) == 0
    {
      ClaimsWithinLimit(Apply(Apply(t, ClaimRun(id)), stale), more, id, t[id].runCount + 1);
    }
  }
}
