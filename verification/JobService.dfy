/** The operations on recurring jobs, with every store and alarm call free to fail (src/job-service.ts). */
module JobService {
  import opened Wrappers
  import opened Utf16
  import opened Jobs
  import opened JobLedger

  datatype ServiceError = InvalidInput | NotFound | QuotaExceeded | Conflict | DispatchFailed | CallFailed

  /** An update leaves out what it does not change; a limit can also be cleared. */
  datatype Patch = Patch(sessionId: Option<Text>, name: Option<Text>, prompt: Option<Text>,
                         cadenceSecs: Option<Number>, maxRuns: Option<Option<Number>>, threadMode: Option<ModeText>)

  const NO_CHANGE := Patch(None, None, None, None, None, None)

  predicate SwitchesToSpecific(before: JobSpec, patch: Patch) {
    patch.threadMode == Some(Mode(SpecificSession)) && before.mode != SpecificSession
  }

  /** The patch over the job: switching to a specific thread never inherits the old one's session. */
  function Merge(before: JobSpec, patch: Patch): JobInput {
    var stored := AsInput(before);
    var switching := SwitchesToSpecific(before, patch);
    JobInput(if patch.sessionId.Some? then patch.sessionId else if switching then None else stored.sessionId,
             if patch.name.Some? then patch.name else stored.name,
             if patch.prompt.Some? then patch.prompt else stored.prompt,
             if patch.cadenceSecs.Some? then patch.cadenceSecs else stored.cadenceSecs,
             if patch.maxRuns.Some? then patch.maxRuns.value else stored.maxRuns,
             if patch.threadMode.Some? then patch.threadMode else stored.threadMode)
  }

  /** What an update writes: a limit already reached exhausts the job, and only an active job gets an alarm. */
  function Updated(job: Job, spec: JobSpec, schedule: Option<nat>): Job {
    var exhausted := spec.maxRuns.Some? && job.runCount >= spec.maxRuns.value;
    job.(spec := spec, status := if exhausted then Exhausted else job.status, schedule := schedule)
  }

  predicate Keyed(key: Option<Key>) { key.Some? && key.value.text != "" }

  /** A key was given, and not the empty one. */
  ghost predicate Given(key: Option<Key>) { key.Some? && key.value != Key("") }

  /** Some job was made under the key. */
  ghost predicate Used(jobs: Table, key: Option<Key>) { key.Some? && exists id :: id in jobs && jobs[id].key == key }

  predicate KeyTaken(jobs: Table, key: Option<Key>) { key.Some? && exists id :: id in jobs && jobs[id].key == key }

  /** Switching to a specific thread without naming one is refused. */
  lemma SwitchNeedsSession(before: JobSpec, patch: Patch)
    requires SwitchesToSpecific(before, patch) && patch.sessionId.None?
    ensures ValidateJobInput(Merge(before, patch)) == Err(BadSession)
  {
    assert Trim([]) == [];
  }

  /** An update that changes nothing leaves the job as it is, but for a name cut just after a space. */
  lemma EmptyPatch(before: JobSpec)
    requires ValidSpec(before)
    ensures ValidateJobInput(Merge(before, NO_CHANGE)) == Ok(before.(name := Trim(before.name)))
    ensures ValidateJobInput(Merge(before, NO_CHANGE)) == Ok(before) <==> Trimmed(before.name)
  {
    RevalidateKeeps(before);
  }

  /** Every field a patch sends is acceptable on its own. */
  predicate Acceptable(patch: Patch) {
    && (patch.sessionId.Some? ==> Trim(patch.sessionId.value) != [])
    && (patch.name.Some? ==> Trim(patch.name.value) != [])
    && (patch.prompt.Some? ==> 0 < |Trim(patch.prompt.value)| <= MAX_PROMPT_CHARS)
    && (patch.cadenceSecs.Some? ==>
          patch.cadenceSecs.value.Int? && MIN_CADENCE_SECS <= patch.cadenceSecs.value.n <= MAX_CADENCE_SECS)
    && (patch.maxRuns.Some? && patch.maxRuns.value.Some? ==>
          patch.maxRuns.value.value.Int? && patch.maxRuns.value.value.n >= 1)
    && (patch.threadMode.Some? ==> patch.threadMode.value.Mode?)
  }

  /** The job an accepted patch makes: what it sent, cleaned, and for the rest what the job had. */
  predicate Patched(before: JobSpec, patch: Patch, after: JobSpec) {
    && after.session == (if patch.sessionId.Some? then SessionId(Trim(patch.sessionId.value)) else before.session)
    && after.name == (if patch.name.Some? then Slice(Trim(patch.name.value), MAX_NAME_CHARS) else Trim(before.name))
    && after.prompt == (if patch.prompt.Some? then Trim(patch.prompt.value) else before.prompt)
    && (if patch.cadenceSecs.Some? then patch.cadenceSecs.value == Int(after.cadenceSecs) else after.cadenceSecs == before.cadenceSecs)
    && (if patch.maxRuns.Some? then patch.maxRuns.value == AsInput(after).maxRuns else after.maxRuns == before.maxRuns)
    && (if patch.threadMode.Some? then patch.threadMode.value == Mode(after.mode) else after.mode == before.mode)
  }

  lemma SentTextAccepted(before: JobSpec)
    requires ValidSpec(before)
    ensures Trim(before.session.text) == before.session.text && Trim(before.prompt) == before.prompt
    ensures Trim(before.name) != [] && |Trim(before.name)| <= MAX_NAME_CHARS && Trim(Trim(before.name)) == Trim(before.name)
  {
    TrimmedStays(before.session.text);
    TrimmedStays(before.prompt);
    LeadingStays(before.name);
    TrimIsTrimmed(before.name);
    TrimmedStays(Trim(before.name));
  }

  lemma UpdateAccepted(before: JobSpec, patch: Patch)
    requires ValidSpec(before)
    ensures ValidateJobInput(Merge(before, patch)).Ok? <==>
              Acceptable(patch) && (SwitchesToSpecific(before, patch) ==> patch.sessionId.Some?)
  {
    SentTextAccepted(before);
    if SwitchesToSpecific(before, patch) && patch.sessionId.None? { SwitchNeedsSession(before, patch); }
  }

  lemma UpdatePatches(before: JobSpec, patch: Patch)
    requires ValidSpec(before) && ValidateJobInput(Merge(before, patch)).Ok?
    ensures Patched(before, patch, ValidateJobInput(Merge(before, patch)).value)
  {
    SentTextAccepted(before);
    UpdateAccepted(before, patch);
  }

  /**
   An update of a stored job is accepted exactly if every field it sends is acceptable on its own and a
   switch to a specific thread names one: what it leaves out never stands in its way, and is kept.
   */
  lemma UpdateAcceptedExactly(before: JobSpec, patch: Patch)
    requires ValidSpec(before)
    ensures var r := ValidateJobInput(Merge(before, patch));
            && (r.Ok? <==>
                  && Acceptable(patch)
                  && (patch.threadMode == Some(Mode(SpecificSession)) && before.mode != SpecificSession ==> patch.sessionId.Some?))
            && (r.Ok? ==> Patched(before, patch, r.value))
  {
    UpdateAccepted(before, patch);
    if ValidateJobInput(Merge(before, patch)).Ok? { UpdatePatches(before, patch); }
  }

  lemma PatchedIsOne(before: JobSpec, patch: Patch, a: JobSpec, b: JobSpec)
    requires Patched(before, patch, a) && Patched(a, patch, b) && Trim(Trim(before.name)) == Trim(before.name)
    ensures a == b
  {
  }

  /** Sending the same update again changes nothing more. */
  lemma RepeatedUpdate(before: JobSpec, patch: Patch)
    requires ValidSpec(before) && ValidateJobInput(Merge(before, patch)).Ok?
    ensures var after := ValidateJobInput(Merge(before, patch)).value;
            ValidateJobInput(Merge(after, patch)) == Ok(after)
  {
    var after := ValidateJobInput(Merge(before, patch)).value;
    ValidatedIsValid(Merge(before, patch));
    SentTextAccepted(before);
    UpdateAccepted(before, patch);
    UpdateAccepted(after, patch);
    UpdatePatches(before, patch);
    UpdatePatches(after, patch);
    PatchedIsOne(before, patch, after, ValidateJobInput(Merge(after, patch)).value);
  }

  /** What is kept about a run asked for under an idempotency key: a lease while it is going on, then its outcome. */
  datatype RunOutcome = RunOutcome(ok: bool, runCount: nat, status: Status, remaining: Option<nat>)

  datatype RunRecord = Pending(leaseExpiresAt: int) | Done(outcome: RunOutcome)

  datatype RunKey = RunKey(id: nat, key: Key)

  const RUN_LEASE_MS := 5 * 60 * 1000

  // ---------------------------------------------------------------- what each operation can leave behind

  function Resumed(row: Job, schedule: Option<nat>): Job { row.(status := Active, schedule := schedule) }

  function Suspended(row: Job): Job { row.(status := Paused, schedule := None) }

  /** The row a failed pause or deletion leaves: the one it found, or the same with a new alarm. */
  predicate Restored(db: Db, row: Job, to: Job, nextAlarm: nat) {
    to == row || (row.status.Active? && to == row.(schedule := Some(db.nextAlarm)) && nextAlarm == db.nextAlarm + 1)
  }

  predicate Switched(db: Db, row: Job, to: Job, nextAlarm: nat) {
    || Restored(db, row, to, nextAlarm)
    || (row.status.Active? && to == Suspended(row))
    || (row.status.Paused? && |ActiveJobs(db.jobs)| < 10
        && to == Resumed(row, Some(db.nextAlarm)) && nextAlarm == db.nextAlarm + 1)
  }

  predicate Launched(db: Db, to: Job, nextAlarm: nat, spec: JobSpec, key: Option<Key>) {
    to == Job(spec, 0, Active, None, key) || (to == Job(spec, 0, Active, Some(db.nextAlarm), key) && nextAlarm == db.nextAlarm + 1)
  }

  predicate Retargeted(db: Db, row: Job, to: Job, nextAlarm: nat, spec: JobSpec) {
    || to == row || to == Updated(row, spec, None)
    || (to == Updated(row, spec, Some(db.nextAlarm)) && to.status.Active? && nextAlarm == db.nextAlarm + 1)
  }

  lemma SwitchedFits(db: Db, id: nat, to: Job, nextAlarm: nat)
    requires Valid(db) && id in db.jobs && nextAlarm >= db.nextAlarm && Switched(db, db.jobs[id], to, nextAlarm)
    ensures Fits(db, id, to, nextAlarm) && id < db.nextJob
  {
    assert RowOk(db.jobs[id], db.nextAlarm);
  }

  lemma LaunchedFits(db: Db, id: nat, to: Job, nextAlarm: nat, spec: JobSpec, key: Option<Key>)
    requires Valid(db) && ValidSpec(spec) && Launched(db, to, nextAlarm, spec, key)
    requires id == db.nextJob && !KeyTaken(db.jobs, key) && |ActiveJobs(db.jobs)| < 10
    ensures Fits(db, id, to, nextAlarm)
  {
  }

  lemma RetargetedFits(db: Db, id: nat, to: Job, nextAlarm: nat, spec: JobSpec)
    requires Valid(db) && id in db.jobs && ValidSpec(spec) && nextAlarm >= db.nextAlarm
    requires Retargeted(db, db.jobs[id], to, nextAlarm, spec)
    ensures Fits(db, id, to, nextAlarm) && id < db.nextJob
  {
    assert RowOk(db.jobs[id], db.nextAlarm);
  }

  // ---------------------------------------------------------------- what each operation answers

  /** Pausing and resuming: a job already there is left alone, an exhausted one never resumes. */
  predicate PausedAs(before: Db, after: Db, id: nat, paused: bool, r: Result<Job, ServiceError>, faults: int) {
    match Lookup(before.jobs, id)
    case None => r.Err? && after == before && (faults == 0 ==> r.error == NotFound)
    case Some(row) =>
      var stays := row.status.Exhausted? || paused == row.status.Paused?;
      && (r.Ok? ==>
            && id in after.jobs && r.value == after.jobs[id] && (row.status.Exhausted? ==> paused)
            && after.jobs == before.jobs[id := r.value]
            && (if stays then r.value == row
                else if paused then r.value == Job(row.spec, row.runCount, Paused, None, row.key)
                else r.value == Job(row.spec, row.runCount, Active, Some(before.nextAlarm), row.key)))
      && (faults == 0 ==>
            && (r.Ok? <==> if row.status.Exhausted? then paused
                           else paused || row.status.Active? || |ActiveJobs(before.jobs)| < 10)
            && (r.Err? ==> after == before && r.error == if row.status.Exhausted? then Conflict else QuotaExceeded))
  }

  /** Creating: a key already used answers with its job; otherwise the new row, and nothing on failure. */
  ghost predicate CreatedAs(before: Db, after: Db, input: JobInput, key: Option<Key>, sessions: set<SessionId>,
                      r: Result<nat, ServiceError>, faults: int) {
    var spec := ValidateJobInput(input);
    && (r.Ok? ==>
          if r.value in before.jobs then Given(key) && before.jobs[r.value].key == key && after == before
          else spec.Ok? && after.jobs == before.jobs[r.value := Job(spec.value, 0, Active, Some(before.nextAlarm), key)])
    && (Used(before.jobs, key) ==> after == before)
    && (faults == 0 ==>
          && (r.Ok? <==>
                && spec.Ok?
                && if Used(before.jobs, key) then Given(key)
                   else spec.value.session in sessions && |ActiveJobs(before.jobs)| < 10)
          && (r.Err? ==>
                && after == before
                && r.error == if spec.Err? then InvalidInput
                              else if Used(before.jobs, key) && !Given(key) && spec.value.session in sessions
                                      && |ActiveJobs(before.jobs)| < 10 then CallFailed
                              else if spec.value.session !in sessions then NotFound else QuotaExceeded))
  }

  /**
   An updated row keeps its count and key; it is exhausted if it was or its count has reached the limit, and
   only an active one has an alarm, a new one.
   */
  predicate RowUpdated(row: Job, to: Job, spec: JobSpec, nextAlarm: nat) {
    && to.spec == spec && to.runCount == row.runCount && to.key == row.key
    && (to.status.Exhausted? <==> row.status.Exhausted? || (spec.maxRuns.Some? && row.runCount >= spec.maxRuns.value))
    && (!to.status.Exhausted? ==> to.status == row.status)
    && to.schedule == (if to.status.Active? then Some(nextAlarm) else None)
  }

  /** Updating: the merged job is validated again, and its run count decides whether it is exhausted. */
  predicate UpdatedAs(before: Db, after: Db, id: nat, patch: Patch, sessions: set<SessionId>, r: Result<Job, ServiceError>, faults: int) {
    match Lookup(before.jobs, id)
    case None => r.Err? && after == before && (faults == 0 ==> r.error == NotFound)
    case Some(row) =>
      var spec := ValidateJobInput(Merge(row.spec, patch));
      && (spec.Err? ==> r.Err? && after == before)
      && (r.Ok? ==>
            && spec.Ok? && spec.value.session in sessions && id in after.jobs && r.value == after.jobs[id]
            && after.jobs == before.jobs[id := r.value] && RowUpdated(row, r.value, spec.value, before.nextAlarm))
      && (faults == 0 ==>
            && (r.Ok? <==> spec.Ok? && spec.value.session in sessions)
            && (r.Err? ==> r.error == if spec.Err? then InvalidInput else NotFound))
  }

  /** Deleting: the row goes, and only that row; a failed deletion keeps every row. */
  predicate DeletedAs(before: Db, after: Db, id: nat, r: Result<(), ServiceError>, faults: int) {
    match r
    case Ok(_) => id in before.jobs && after.jobs == before.jobs - {id}
    case Err(_) => after.jobs.Keys == before.jobs.Keys && (faults == 0 ==> id !in before.jobs)
  }

  // ---------------------------------------------------------------- what a run does

  predicate LastRun(db: Db, id: nat) { Claimable(db.jobs, id) && Claimed(db.jobs[id]).status.Exhausted? }

  /** Both stores after a run: the claim, and the alarm gone if that was the last run. */
  function Ran(db: Db, id: nat, leaked: bool): Db {
    if LastRun(db, id) && !leaked
    then db.(jobs := Claim(db.jobs, id), alarms := db.alarms - AlarmOf(Lookup(db.jobs, id)))
    else db.(jobs := Claim(db.jobs, id))
  }

  /** What a run reports: the counts after its claim, or those it found when there was nothing to claim. */
  predicate Reports(jobs: Table, id: nat, o: RunOutcome)
    requires id in jobs
  {
    var row := Claim(jobs, id)[id];
    o.runCount == row.runCount && o.status == row.status && o.remaining == Remaining(row) && (o.ok ==> Claimable(jobs, id))
  }

  function Replayed(record: RunRecord): Result<RunOutcome, ServiceError> {
    if record.Pending? then Err(Conflict) else if record.outcome.ok then Ok(record.outcome) else Err(DispatchFailed)
  }

  predicate InProgress(runs: map<RunKey, RunRecord>, k: RunKey, now: int) {
    k in runs && runs[k].Pending? && now < runs[k].leaseExpiresAt
  }

  /**
   How a run answers.  A key with a known outcome replays it and one still leased is refused, both without
   changing anything; any other run makes its claim, and its outcome, delivered or not, is kept under the key.
   */
  ghost predicate RunAs(before: Db, after: Db, runs: map<RunKey, RunRecord>, kept: map<RunKey, RunRecord>,
                  id: nat, key: Option<Key>, now: int, r: Result<RunOutcome, ServiceError>, faults: int) {
    if id !in before.jobs then after == before && kept == runs && r.Err? && (faults == 0 ==> r.error == NotFound)
    else if Given(key) && RunKey(id, key.value) in runs && runs[RunKey(id, key.value)].Done? then
      var o := runs[RunKey(id, key.value)].outcome;
      && after == before && kept == runs && (r.Ok? ==> o.ok && r.value == o)
      && (faults == 0 ==> r == if o.ok then Ok(o) else Err(DispatchFailed))
    else if Given(key) && InProgress(runs, RunKey(id, key.value), now) then
      after == before && kept == runs && r.Err? && (faults == 0 ==> r.error == Conflict)
    else
      && (r.Ok? ==> r.value.ok && Delivered(before, after, runs, kept, id, key, r.value))
      && (r == Err(DispatchFailed) ==> exists o: RunOutcome :: !o.ok && Delivered(before, after, runs, kept, id, key, o))
      && (faults == 0 ==> r.Ok? || r.error == DispatchFailed)
      && (r.Err? && r.error != DispatchFailed ==>
            kept == runs || (Given(key) && kept == runs[RunKey(id, key.value) := Pending(now + 5 * 60 * 1000)]))
  }

  /** The claim is made, the outcome reports the counts after it, and is what the key answers with from now on. */
  ghost predicate Delivered(before: Db, after: Db, runs: map<RunKey, RunRecord>, kept: map<RunKey, RunRecord>,
                      id: nat, key: Option<Key>, o: RunOutcome) {
    && id in before.jobs && after.jobs == Claim(before.jobs, id) && Reports(before.jobs, id, o)
    && kept == if Given(key) then runs[RunKey(id, key.value) := Done(o)] else runs
  }

  lemma ClaimKeepsRows(db: Db, id: nat, leaked: bool)
    requires Valid(db)
    ensures Valid(Ran(db, id, leaked)) && Survives(db, Ran(db, id, leaked), 2)
  {
    if Claimable(db.jobs, id) {
      assert RowOk(db.jobs[id], db.nextAlarm);
      RowsStayOk(db.jobs, Claim(db.jobs, id), id, db.nextJob, db.nextAlarm, db.nextAlarm);
    }
  }

  lemma ClaimKeepsOrphans(db: Db, id: nat, leaked: bool)
    requires Valid(db) && Aligned(db.jobs, db.alarms) && Claimable(db.jobs, id) && (leaked ==> LastRun(db, id))
    ensures var after := Ran(db, id, leaked);
            Orphans(after.jobs, after.alarms) == Orphans(db.jobs, db.alarms) + if leaked then AlarmOf(Lookup(db.jobs, id)) else {}
  {
    var after := Ran(db, id, leaked);
    var own := AlarmOf(Lookup(db.jobs, id));
    assert own == AlarmAt(db.jobs, id) <= db.alarms;
    forall a ensures a in Orphans(after.jobs, after.alarms) <==> a in Orphans(db.jobs, db.alarms) || (leaked && a in own) {
      TrackedMoves(db.jobs, after.jobs, id, db.nextJob, db.nextAlarm, a);
      if a in own { assert Holds(db.jobs, id, a); }
    }
  }

  lemma ClaimKeepsAlignment(db: Db, id: nat, leaked: bool)
    requires Valid(db) && Aligned(db.jobs, db.alarms) && Claimable(db.jobs, id)
    ensures var after := Ran(db, id, leaked); Aligned(after.jobs, after.alarms)
  {
    var after := Ran(db, id, leaked);
    assert RowOk(db.jobs[id], db.nextAlarm);
    var live := db.alarms - AlarmAt(db.jobs, id) + AlarmAt(after.jobs, id);
    AlignmentStays(db.jobs, after.jobs, id, db.nextJob, db.nextAlarm, db.alarms, live);
  }

  /** A run keeps the rows in order and every job with its alarm; the only alarm it can orphan is that of a last run. */
  lemma RanKeeps(db: Db, id: nat, leaked: bool)
    requires Valid(db) && id in db.jobs && (leaked ==> LastRun(db, id))
    ensures var after := Ran(db, id, leaked);
            && Valid(after) && Survives(db, after, 2)
            && (Aligned(db.jobs, db.alarms) ==>
                  && Aligned(after.jobs, after.alarms)
                  && Orphans(after.jobs, after.alarms) ==
                     Orphans(db.jobs, db.alarms) + if leaked then AlarmOf(Lookup(db.jobs, id)) else {})
  {
    ClaimKeepsRows(db, id, leaked);
    if Aligned(db.jobs, db.alarms) && Claimable(db.jobs, id) {
      ClaimKeepsOrphans(db, id, leaked);
      ClaimKeepsAlignment(db, id, leaked);
    }
  }

  class Service {
    var db: Db
    var sessions: set<SessionId>
    var runs: map<RunKey, RunRecord>
    ghost var faults: nat

    constructor (owned: set<SessionId>)
      ensures Valid(db) && Aligned(db.jobs, db.alarms) && Orphans(db.jobs, db.alarms) == {}
      ensures db == Db(map[], {}, 0, 0) && sessions == owned && runs == map[]
    {
      db, sessions, runs, faults := Db(map[], {}, 0, 0), owned, map[], 0;
    }

    ghost function Now(): Point reads this { Point(db, sessions, runs, faults) }

    // -------------------------------------------------------------- calls that can fail, without effect when they do

    method Attempt() returns (ok: bool)
      modifies `faults
      ensures faults == old(faults) + if ok then 0 else 1
    {
      ok := *;
      if !ok { faults := faults + 1; }
    }

    method Schedule(session: SessionId) returns (r: Option<nat>)
      modifies `db, `faults
      ensures r.None? ==> db == old(db) && faults == old(faults) + 1
      ensures r.Some? ==>
                && r.value == old(db).nextAlarm && faults == old(faults)
                && db == old(db).(alarms := old(db).alarms + {Alarm(session, r.value)}, nextAlarm := r.value + 1)
    {
      var ok := Attempt();
      if !ok { return None; }
      r := Some(db.nextAlarm);
      db := db.(alarms := db.alarms + {Alarm(session, db.nextAlarm)}, nextAlarm := db.nextAlarm + 1);
    }

    method Cancel(session: SessionId, schedule: Option<nat>) returns (ok: bool)
      modifies `db, `faults
      ensures db == if ok then old(db).(alarms := old(db).alarms - AlarmFor(session, schedule)) else old(db)
      ensures faults == old(faults) + if ok then 0 else 1
      ensures schedule.None? ==> ok
    {
      if schedule.None? { return true; }
      ok := Attempt();
      if ok { db := db.(alarms := db.alarms - {Alarm(session, schedule.value)}); }
    }

    /** Write or delete one row. */
    method Store(id: nat, to: Option<Job>) returns (ok: bool)
      modifies `db, `faults
      ensures db == if ok then old(db).(jobs := With(old(db).jobs, id, to)) else old(db)
      ensures faults == old(faults) + if ok then 0 else 1
    {
      ok := Attempt();
      if ok { db := db.(jobs := With(db.jobs, id, to)); }
    }

    method Owned(id: nat) returns (r: Result<Job, ServiceError>)
      modifies `faults
      ensures r.Ok? ==> id in db.jobs && r.value == db.jobs[id] && faults == old(faults)
      ensures r.Err? ==> (r.error == NotFound && id !in db.jobs && faults == old(faults))
                         || (r.error == CallFailed && faults == old(faults) + 1)
    {
      var ok := Attempt();
      if !ok { return Err(CallFailed); }
      if id !in db.jobs { return Err(NotFound); }
      return Ok(db.jobs[id]);
    }

    // -------------------------------------------------------------- steps that undo themselves

    /** Put an alarm behind a paused row and record it; take the alarm away if that fails. */
    method Resume(id: nat, row: Job) returns (ok: bool, ghost to: Job)
      requires id in db.jobs && row == db.jobs[id] && row.status.Paused? && row.schedule.None? && Fresh(db, row.spec.session)
      modifies `db, `faults
      ensures Moved(old(db), db, id, Some(to), row.spec.session, faults - old(faults)) && db.nextJob == old(db).nextJob
      ensures to == if ok then Resumed(row, Some(old(db).nextAlarm)) else row
      ensures to != row ==> db.nextAlarm == old(db).nextAlarm + 1
      ensures ok <==> faults == old(faults)
    {
      to := row;
      Unchanged(db.jobs, id);
      var sid := Schedule(row.spec.session);
      if sid.None? { return false, row; }
      ok := Store(id, Some(Resumed(row, sid)));
      if ok { return true, Resumed(row, sid); }
      var cancelled := Cancel(row.spec.session, sid);
    }

    /** Take the alarm away, then record the pause; put an alarm back if that fails. */
    method Pause(id: nat, row: Job) returns (ok: bool, ghost to: Job)
      requires id in db.jobs && row == db.jobs[id] && row.status.Active? && Fresh(db, row.spec.session)
      modifies `db, `faults
      ensures Moved(old(db), db, id, Some(to), row.spec.session, faults - old(faults)) && db.nextJob == old(db).nextJob
      ensures if ok then to == Suspended(row) else Restored(old(db), row, to, db.nextAlarm)
      ensures ok <==> faults == old(faults)
    {
      to := row;
      Unchanged(db.jobs, id);
      ok := Cancel(row.spec.session, row.schedule);
      if !ok { return; }
      ok := Store(id, Some(Suspended(row)));
      if ok { return true, Suspended(row); }
      var replacement := Schedule(row.spec.session);
      if replacement.Some? {
        var stored := Store(id, Some(row.(schedule := replacement)));
        if stored { to := row.(schedule := replacement); }
      }
    }

    /** Insert the row, put an alarm behind it, record both; undo everything if a step fails. */
    method Launch(id: nat, spec: JobSpec, key: Option<Key>) returns (ok: bool, ghost to: Option<Job>)
      requires id == db.nextJob && id !in db.jobs && Fresh(db, spec.session)
      modifies `db, `faults
      ensures Moved(old(db), db, id, to, spec.session, faults - old(faults)) && db.nextJob == old(db).nextJob + 1
      ensures to.Some? ==> Launched(old(db), to.value, db.nextAlarm, spec, key)
      ensures ok ==> to == Some(Job(spec, 0, Active, Some(old(db).nextAlarm), key))
      ensures !ok && faults <= old(faults) + 1 ==> to.None?
      ensures ok <==> faults == old(faults)
    {
      db := db.(nextJob := id + 1);
      Unchanged(db.jobs, id);
      var row := Job(spec, 0, Active, None, key);
      ok := Store(id, Some(row));
      if !ok { return false, None; }
      to := Some(row);
      var sid := Schedule(spec.session);
      ok := false;
      if sid.Some? {
        ok := Store(id, Some(row.(schedule := sid)));
        if ok {
          to := Some(row.(schedule := sid));
          ok := Attempt();
        }
        if ok { return; }
        var cancelled := Cancel(spec.session, sid);
      }
      var dropped := Store(id, None);
      if dropped { to := None; }
    }

    /** A new alarm if the job is to be active, the new row, then the end of the old alarm, tried twice. */
    method Retarget(id: nat, row: Job, spec: JobSpec) returns (ok: bool, ghost to: Job)
      requires id in db.jobs && row == db.jobs[id] && Fresh(db, spec.session)
      modifies `db, `faults
      ensures Moved(old(db), db, id, Some(to), spec.session, faults - old(faults)) && db.nextJob == old(db).nextJob
      ensures Retargeted(old(db), row, to, db.nextAlarm, spec)
      ensures ok ==> RowUpdated(row, to, spec, old(db).nextAlarm)
      ensures !ok ==> faults > old(faults)
    {
      to := row;
      Unchanged(db.jobs, id);
      var replacement: Option<nat> := None;
      if Updated(row, spec, None).status.Active? {
        replacement := Schedule(spec.session);
        if replacement.None? { return false, row; }
      }
      ok := Store(id, Some(Updated(row, spec, replacement)));
      if !ok {
        var undone := Cancel(spec.session, replacement);
        return;
      }
      to := Updated(row, spec, replacement);
      var retired := Cancel(row.spec.session, row.schedule);
      if !retired {
        var again := Cancel(row.spec.session, row.schedule);
        ok := Attempt();
      }
    }

    /** Take the alarm away, keep evidence, delete the row; put an active job's alarm back if that fails. */
    method Remove(id: nat, row: Job) returns (ok: bool, ghost to: Option<Job>)
      requires id in db.jobs && row == db.jobs[id] && Fresh(db, row.spec.session) && (!row.status.Active? ==> row.schedule.None?)
      modifies `db, `faults
      ensures Moved(old(db), db, id, to, row.spec.session, faults - old(faults)) && db.nextJob == old(db).nextJob
      ensures if ok then to == None else to.Some? && Restored(old(db), row, to.value, db.nextAlarm)
      ensures ok <==> faults == old(faults)
    {
      to := Some(row);
      Unchanged(db.jobs, id);
      ok := Cancel(row.spec.session, row.schedule);
      if !ok { return; }
      ok := Attempt();
      if ok { ok := Store(id, None); }
      if ok { return true, None; }
      if row.status.Active? {
        var replacement := Schedule(row.spec.session);
        if replacement.Some? {
          var stored := Store(id, Some(row.(schedule := replacement)));
          if stored { to := Some(row.(schedule := replacement)); }
        }
      }
    }

    method DeleteSteps(id: nat) returns (r: Result<(), ServiceError>, ghost to: Option<Job>, ghost found: bool)
      requires id in db.jobs ==> Ready(db, db.jobs[id])
      modifies `db, `faults
      ensures faults >= old(faults)
      ensures !found ==> db == old(db)
      ensures found ==>
                && id in old(db).jobs && db.nextJob == old(db).nextJob
                && Moved(old(db), db, id, to, old(db).jobs[id].spec.session, faults - old(faults))
                && (to.Some? ==> Restored(old(db), old(db).jobs[id], to.value, db.nextAlarm))
      ensures DeletedAs(old(db), db, id, r, faults - old(faults))
    {
      to, found := None, false;
      var owned := Owned(id);
      if owned.Err? { return Err(owned.error), to, found; }
      var ok;
      ok, to := Remove(id, owned.value);
      return if ok then Ok(()) else Err(CallFailed), to, true;
    }

    // -------------------------------------------------------------- the operations, check by check

    method SetPausedSteps(id: nat, paused: bool) returns (r: Result<Job, ServiceError>, ghost to: Option<Job>, ghost session: SessionId)
      requires id in db.jobs ==> Ready(db, db.jobs[id])
      modifies `db, `faults
      ensures Moved(old(db), db, id, to, session, faults - old(faults)) && db.nextJob == old(db).nextJob
      ensures if id in old(db).jobs then to.Some? && Switched(old(db), old(db).jobs[id], to.value, db.nextAlarm) else to.None?
      ensures PausedAs(old(db), db, id, paused, r, faults - old(faults))
    {
      to, session := Lookup(db.jobs, id), SessionId([]);
      Unchanged(db.jobs, id);
      var owned := Owned(id);
      if owned.Err? { return Err(owned.error), to, session; }
      var row := owned.value;
      session := row.spec.session;
      if row.status.Exhausted? { return if paused then Ok(row) else Err(Conflict), to, session; }
      if paused == row.status.Paused? { return Ok(row), to, session; }
      var ok;
      ghost var left;
      if paused {
        ok, left := Pause(id, row);
      } else {
        ok := Attempt();
        if !ok { return Err(CallFailed), to, session; }
        if |ActiveJobs(db.jobs)| >= MAX_ACTIVE_JOBS_PER_OWNER { return Err(QuotaExceeded), to, session; }
        ok, left := Resume(id, row);
      }
      to := Some(left);
      if !ok { return Err(CallFailed), to, session; }
      ok := Attempt();
      if !ok { return Err(CallFailed), to, session; }
      r := Owned(id);
    }

    method CreateSteps(input: JobInput, key: Option<Key>)
      returns (r: Result<nat, ServiceError>, ghost to: Option<Job>, ghost launched: bool)
      requires db.nextJob !in db.jobs && (ValidateJobInput(input).Ok? ==> Fresh(db, ValidateJobInput(input).value.session))
      modifies `db, `faults
      ensures faults >= old(faults)
      ensures !launched ==> db == old(db)
      ensures launched ==>
                && ValidateJobInput(input).Ok? && !Used(old(db).jobs, key)
                && |ActiveJobs(old(db).jobs)| < 10 && db.nextJob == old(db).nextJob + 1
                && Moved(old(db), db, old(db).nextJob, to, ValidateJobInput(input).value.session, faults - old(faults))
                && (to.Some? ==> Launched(old(db), to.value, db.nextAlarm, ValidateJobInput(input).value, key))
      ensures CreatedAs(old(db), db, input, key, sessions, r, faults - old(faults))
    {
      to, launched := None, false;
      var parsed := ValidateJobInput(input);
      if parsed.Err? { return Err(InvalidInput), to, launched; }
      var ok := true;
      if Keyed(key) {
        ok := Attempt();
        if !ok { return Err(CallFailed), to, launched; }
        if KeyTaken(db.jobs, key) {
          var id :| id in db.jobs && db.jobs[id].key == key;
          return Ok(id), to, launched;
        }
      }
      ok := Attempt();
      if !ok { return Err(CallFailed), to, launched; }
      if parsed.value.session !in sessions { return Err(NotFound), to, launched; }
      ok := Attempt();
      if !ok { return Err(CallFailed), to, launched; }
      if |ActiveJobs(db.jobs)| >= MAX_ACTIVE_JOBS_PER_OWNER { return Err(QuotaExceeded), to, launched; }
      if KeyTaken(db.jobs, key) { return Err(CallFailed), to, launched; }
      var id := db.nextJob;
      launched := true;
      ok, to := Launch(id, parsed.value, key);
      if !ok { return Err(CallFailed), to, launched; }
      var back := Owned(id);
      r := if back.Err? then Err(back.error) else Ok(id);
    }

    method UpdateSteps(id: nat, patch: Patch) returns (r: Result<Job, ServiceError>, ghost to: Option<Job>, ghost spec: JobSpec)
      requires id in db.jobs ==>
                 var parsed := ValidateJobInput(Merge(db.jobs[id].spec, patch));
                 parsed.Ok? ==> Fresh(db, parsed.value.session)
      modifies `db, `faults
      ensures faults >= old(faults)
      ensures to.None? ==> db == old(db)
      ensures to.Some? ==>
                && id in old(db).jobs && ValidateJobInput(Merge(old(db).jobs[id].spec, patch)) == Ok(spec)
                && Moved(old(db), db, id, to, spec.session, faults - old(faults)) && db.nextJob == old(db).nextJob
                && Retargeted(old(db), old(db).jobs[id], to.value, db.nextAlarm, spec)
      ensures UpdatedAs(old(db), db, id, patch, sessions, r, faults - old(faults))
    {
      to, spec := None, JobSpec(SessionId([]), [], [], 0, None, SameSession);
      var owned := Owned(id);
      if owned.Err? { return Err(owned.error), to, spec; }
      var row := owned.value;
      var parsed := ValidateJobInput(Merge(row.spec, patch));
      if parsed.Err? { return Err(InvalidInput), to, spec; }
      var ok := Attempt();
      if !ok { return Err(CallFailed), to, spec; }
      if parsed.value.session !in sessions { return Err(NotFound), to, spec; }
      spec := parsed.value;
      ghost var left;
      ok, left := Retarget(id, row, parsed.value);
      to := Some(left);
      if !ok { return Err(CallFailed), to, spec; }
      ok := Attempt();
      if !ok { return Err(CallFailed), to, spec; }
      r := Owned(id);
    }

    // -------------------------------------------------------------- the operations

    method SetPaused(id: nat, paused: bool) returns (r: Result<Job, ServiceError>)
      requires Valid(db)
      modifies `db, `faults
      ensures Kept(old(db), db, faults - old(faults)) && PausedAs(old(db), db, id, paused, r, faults - old(faults))
    {
      RowIsReady(db, id);
      ghost var to, session;
      r, to, session := SetPausedSteps(id, paused);
      if to.Some? {
        SwitchedFits(old(db), id, to.value, db.nextAlarm);
        MovedSurvives(old(db), db, id, to, session, faults - old(faults));
      } else {
        NothingMoved(db, faults - old(faults));
      }
    }

    method Create(input: JobInput, key: Option<Key>) returns (r: Result<nat, ServiceError>)
      requires Valid(db)
      modifies `db, `faults
      ensures Kept(old(db), db, faults - old(faults)) && CreatedAs(old(db), db, input, key, sessions, r, faults - old(faults))
    {
      ghost var to, launched;
      r, to, launched := CreateSteps(input, key);
      if launched {
        var spec := ValidateJobInput(input).value;
        ValidatedIsValid(input);
        if to.Some? { LaunchedFits(old(db), old(db).nextJob, to.value, db.nextAlarm, spec, key); }
        MovedSurvives(old(db), db, old(db).nextJob, to, spec.session, faults - old(faults));
      } else {
        NothingMoved(db, faults - old(faults));
      }
    }

    method Update(id: nat, patch: Patch) returns (r: Result<Job, ServiceError>)
      requires Valid(db)
      modifies `db, `faults
      ensures Kept(old(db), db, faults - old(faults)) && UpdatedAs(old(db), db, id, patch, sessions, r, faults - old(faults))
    {
      ghost var to, spec;
      r, to, spec := UpdateSteps(id, patch);
      if to.Some? {
        ValidatedIsValid(Merge(old(db).jobs[id].spec, patch));
        RetargetedFits(old(db), id, to.value, db.nextAlarm, spec);
        MovedSurvives(old(db), db, id, to, spec.session, faults - old(faults));
      } else {
        NothingMoved(db, faults - old(faults));
      }
    }

    method Delete(id: nat) returns (r: Result<(), ServiceError>)
      requires Valid(db)
      modifies `db, `faults
      ensures Kept(old(db), db, faults - old(faults)) && DeletedAs(old(db), db, id, r, faults - old(faults))
    {
      RowIsReady(db, id);
      ghost var to, found;
      r, to, found := DeleteSteps(id);
      if found {
        if to.Some? { SwitchedFits(old(db), id, to.value, db.nextAlarm); }
        MovedSurvives(old(db), db, id, to, old(db).jobs[id].spec.session, faults - old(faults));
      } else {
        NothingMoved(db, faults - old(faults));
      }
    }

    // -------------------------------------------------------------- running a job

    /** Claim a run, retire the alarm if it was the last one, and dispatch; `leaked` tells that retiring failed. */
    method RunJobNow(id: nat, row: Job, newSession: SessionId) returns (r: Option<RunOutcome>, ghost leaked: bool)
      requires id in db.jobs && row == db.jobs[id]
      modifies `db, `sessions, `faults
      ensures faults >= old(faults)
      ensures db == Ran(old(db), id, leaked) || (r.None? && !leaked && db == old(db))
      ensures leaked ==> faults > old(faults) && LastRun(old(db), id)
      ensures r.None? ==> faults > old(faults)
      ensures r.Some? ==> db == Ran(old(db), id, leaked) && Reports(old(db).jobs, id, r.value)
    {
      leaked := false;
      var ok := Attempt();
      if !ok { return None, false; }
      if !Claimable(db.jobs, id) { return Some(RunOutcome(false, row.runCount, row.status, Remaining(row))), false; }
      var claim := Claimed(row);
      db := db.(jobs := Claim(db.jobs, id));
      if claim.status.Exhausted? {
        var cancelled := Cancel(row.spec.session, row.schedule);
        leaked := !cancelled;
      }
      if row.spec.mode.NewSessionPerRun? {
        ok := Attempt();
        if !ok { return None, leaked; }
        sessions := sessions + {newSession};
      }
      var injected := *;
      return Some(RunOutcome(injected, claim.runCount, claim.status, Remaining(claim))), leaked;
    }

    /** Reserve the key: an outcome already known is replayed, a run under way within its lease is refused. */
    method Reserve(id: nat, key: Key, now: int) returns (r: Option<Result<RunOutcome, ServiceError>>)
      modifies `runs, `faults
      ensures faults >= old(faults)
      ensures r.Some? ==> runs == old(runs)
      ensures r.None? ==> runs == old(runs)[RunKey(id, key) := Pending(now + RUN_LEASE_MS)] && faults == old(faults)
      ensures r.None? && RunKey(id, key) in old(runs) ==>
                old(runs)[RunKey(id, key)].Pending? && now >= old(runs)[RunKey(id, key)].leaseExpiresAt
      ensures r.Some? && faults == old(faults) ==>
                && RunKey(id, key) in old(runs) && r.value == Replayed(old(runs)[RunKey(id, key)])
                && (old(runs)[RunKey(id, key)].Done? || now < old(runs)[RunKey(id, key)].leaseExpiresAt)
      ensures r.Some? && faults > old(faults) ==> r.value == Err(CallFailed) || r.value == Err(Conflict)
      ensures r.Some? && r.value.Ok? ==> RunKey(id, key) in old(runs) && r.value == Replayed(old(runs)[RunKey(id, key)])
    {
      var ok := Attempt();
      if !ok { return Some(Err(CallFailed)); }
      var k := RunKey(id, key);
      if k in runs {
        if runs[k].Done? { return Some(Replayed(runs[k])); }
        if now < runs[k].leaseExpiresAt { return Some(Err(Conflict)); }
        ok := Attempt();
        if !ok { return Some(Err(CallFailed)); }
      } else {
        ok := Attempt();
        if !ok { return Some(Err(Conflict)); }
      }
      runs := runs[k := Pending(now + RUN_LEASE_MS)];
      return None;
    }

    method RunSteps(id: nat, key: Option<Key>, now: int, newSession: SessionId)
      returns (r: Result<RunOutcome, ServiceError>, ghost leaked: bool)
      modifies `db, `sessions, `runs, `faults
      ensures faults >= old(faults)
      ensures (db == old(db) && !leaked) || (id in old(db).jobs && db == Ran(old(db), id, leaked))
      ensures leaked ==> faults > old(faults) && LastRun(old(db), id)
      ensures RunAs(old(db), db, old(runs), runs, id, key, now, r, faults - old(faults))
      ensures r.Err? && r.error != DispatchFailed && faults == old(faults) ==>
                id !in old(db).jobs || (Given(key) && InProgress(old(runs), RunKey(id, key.value), now))
    {
      leaked := false;
      var owned := Owned(id);
      if owned.Err? { return Err(owned.error), leaked; }
      var row := owned.value;
      if Keyed(key) {
        var known := Reserve(id, key.value, now);
        if known.Some? { return known.value, leaked; }
      }
      var outcome;
      outcome, leaked := RunJobNow(id, row, newSession);
      if outcome.None? { return Err(CallFailed), leaked; }
      var ok := Attempt();
      if !ok { return Err(CallFailed), leaked; }
      if Keyed(key) { runs := runs[RunKey(id, key.value) := Done(outcome.value)]; }
      assert Delivered(old(db), db, old(runs), runs, id, key, outcome.value);
      return if outcome.value.ok then Ok(outcome.value) else Err(DispatchFailed), leaked;
    }

    /**
     Run a job now.  It is claimed at most once, and its alarm outlives it only if this was its last
     run and the alarm could not be cancelled.
     */
    method Run(id: nat, key: Option<Key>, now: int, newSession: SessionId)
      returns (r: Result<RunOutcome, ServiceError>, ghost leaked: bool)
      requires Valid(db)
      modifies `db, `sessions, `runs, `faults
      ensures Valid(db) && faults >= old(faults)
      ensures (db == old(db) && !leaked) || (id in old(db).jobs && db == Ran(old(db), id, leaked))
      ensures leaked ==> faults > old(faults) && LastRun(old(db), id)
      ensures Survives(old(db), db, 2)
      ensures old(Aligned(db.jobs, db.alarms)) ==>
                && Aligned(db.jobs, db.alarms)
                && Orphans(db.jobs, db.alarms) ==
                   old(Orphans(db.jobs, db.alarms)) + if leaked then AlarmOf(Lookup(old(db).jobs, id)) else {}
      ensures RunAs(old(db), db, old(runs), runs, id, key, now, r, faults - old(faults))
      ensures r.Err? && r.error != DispatchFailed && faults == old(faults) ==>
                id !in old(db).jobs || (Given(key) && InProgress(old(runs), RunKey(id, key.value), now))
    {
      RowIsReady(db, id);
      r, leaked := RunSteps(id, key, now, newSession);
      if id in old(db).jobs { RanKeeps(old(db), id, leaked); }
    }
  }

  /** What a step needs to know of the row it works on. */
  predicate Ready(db: Db, row: Job) { Fresh(db, row.spec.session) && (!row.status.Active? ==> row.schedule.None?) }

  lemma RowIsReady(db: Db, id: nat)
    requires Valid(db)
    ensures id in db.jobs ==> Ready(db, db.jobs[id]) && id < db.nextJob
  {
    assert id in db.jobs ==> RowOk(db.jobs[id], db.nextAlarm);
  }

  // ---------------------------------------------------------------- whole runs of the service

  /** The state of the service an operation starts from or leaves, and how many calls have failed so far. */
  datatype Point = Point(db: Db, sessions: set<SessionId>, runs: map<RunKey, RunRecord>, faults: int)

  datatype Command =
    | Create(input: JobInput, createKey: Option<Key>)
    | Update(id: nat, patch: Patch)
    | SetPaused(id: nat, paused: bool)
    | Run(id: nat, runKey: Option<Key>, now: int, newSession: SessionId)
    | Delete(id: nat)

  datatype Reply =
    | Created(created: Result<nat, ServiceError>)
    | Changed(changed: Result<Job, ServiceError>)
    | Deleted(deleted: Result<(), ServiceError>)
    | RunReply(outcome: Result<RunOutcome, ServiceError>)

  /** One operation of a run of the service: what was asked and answered, and the state before and after. */
  datatype Event = Event(command: Command, reply: Reply, before: Point, after: Point) {
    function Faults(): int { after.faults - before.faults }
  }

  predicate RestStays(e: Event) { e.after.sessions == e.before.sessions && e.after.runs == e.before.runs }

  /** The answer is the one the operation promises. */
  ghost predicate Performed(e: Event) {
    match e.command
    case Create(input, key) =>
      && e.reply.Created? && CreatedAs(e.before.db, e.after.db, input, key, e.before.sessions, e.reply.created, e.Faults())
      && RestStays(e)
    case Update(id, patch) =>
      && e.reply.Changed? && UpdatedAs(e.before.db, e.after.db, id, patch, e.before.sessions, e.reply.changed, e.Faults())
      && RestStays(e)
    case SetPaused(id, paused) =>
      && e.reply.Changed? && PausedAs(e.before.db, e.after.db, id, paused, e.reply.changed, e.Faults())
      && RestStays(e)
    case Delete(id) =>
      && e.reply.Deleted? && DeletedAs(e.before.db, e.after.db, id, e.reply.deleted, e.Faults())
      && RestStays(e)
    case Run(id, key, now, _) =>
      e.reply.RunReply? && RunAs(e.before.db, e.after.db, e.before.runs, e.after.runs, id, key, now, e.reply.outcome, e.Faults())
  }

  /** The alarm a last run was to cancel and did not. */
  function LeakedBy(e: Event): set<Alarm> {
    if e.command.Run? && LastRun(e.before.db, e.command.id) && e.after.db.jobs == Claim(e.before.db.jobs, e.command.id)
    then AlarmOf(Lookup(e.before.db.jobs, e.command.id)) * e.after.db.alarms
    else {}
  }

  /** No operation but a run met more than one failed call. */
  predicate Calm(e: Event) { e.command.Run? || e.Faults() <= 1 }

  ghost predicate AlignedDb(db: Db) { Aligned(db.jobs, db.alarms) }

  ghost function OrphansOf(db: Db): set<Alarm> { Orphans(db.jobs, db.alarms) }

  /** The event is a run of this job that made its claim. */
  predicate Claims(e: Event, id: nat) { e.command.Run? && e.command.id == id && e.after.db.jobs != e.before.db.jobs }

  /** Only a run that makes its claim moves a count, by one, and it finds an active job with runs left; a new job starts at none. */
  ghost predicate CountsMove(e: Event) {
    var before, after := e.before.db.jobs, e.after.db.jobs;
    && (forall id :: id in after ==>
          after[id].runCount == if id in before then before[id].runCount + (if Claims(e, id) then 1 else 0) else 0)
    && (forall id :: Claims(e, id) ==>
          && id in before && id in after && before[id].status == Active
          && (before[id].spec.maxRuns.Some? ==> before[id].runCount < before[id].spec.maxRuns.value))
  }

  /** What one operation keeps; in passing, a run adds the alarm it leaks to those no job accounts for. */
  ghost predicate Stepped(e: Event) {
    && Performed(e) && e.Faults() >= 0 && Valid(e.after.db) && Survives(e.before.db, e.after.db, 2) && CountsMove(e)
    && (Calm(e) && AlignedDb(e.before.db) ==>
          AlignedDb(e.after.db) && OrphansOf(e.after.db) == OrphansOf(e.before.db) + LeakedBy(e))
  }

  /** The events of a run of the service: one for each command, each from the state the one before left. */
  ghost predicate Logged(log: seq<Event>, commands: seq<Command>, first: Point, last: Point)
    decreases |log|
  {
    if log == [] then commands == [] && first == last
    else
      var n := |log| - 1;
      && |commands| == |log| && log[n].command == commands[n] && log[n].after == last && Stepped(log[n])
      && Logged(log[..n], commands[..n], first, log[n].before)
  }

  function LeakedIn(log: seq<Event>): set<Alarm> { if log == [] then {} else LeakedIn(log[..|log| - 1]) + LeakedBy(log[|log| - 1]) }

  function Replies(log: seq<Event>): seq<Reply> { if log == [] then [] else Replies(log[..|log| - 1]) + [log[|log| - 1].reply] }

  predicate AllCalm(log: seq<Event>) { log == [] || (AllCalm(log[..|log| - 1]) && Calm(log[|log| - 1])) }

  /** The event by itself is a run of the service. */
  ghost predicate Alone(e: Event) { Logged([e], [e.command], e.before, e.after) }

  lemma OneMoreEvent(log: seq<Event>, commands: seq<Command>, first: Point, e: Event)
    ensures Logged(log, commands, first, e.before) && Alone(e) ==> Logged(log + [e], commands + [e.command], first, e.after)
    ensures Replies(log + [e]) == Replies(log) + [e.reply]
  {
    var more, asked := log + [e], commands + [e.command];
    assert more[..|log|] == log;
    if Logged(log, commands, first, e.before) && Alone(e) {
      assert |commands| == |log|;
      assert asked[..|log|] == commands;
    }
  }

  lemma {:induction false} LoggedKeeps(log: seq<Event>, commands: seq<Command>, first: Point, last: Point)
    requires Valid(first.db) && Logged(log, commands, first, last)
    ensures Valid(last.db) && Survives(first.db, last.db, 2)
    ensures AllCalm(log) && AlignedDb(first.db) ==>
              AlignedDb(last.db) && OrphansOf(last.db) == OrphansOf(first.db) + LeakedIn(log)
    decreases |log|
  {
    if log != [] {
      var n := |log| - 1;
      LoggedKeeps(log[..n], commands[..n], first, log[n].before);
      SurvivesAgain(first.db, log[n].before.db, last.db, 2, 2);
    }
  }

  /** How many runs of a job make their claim along a log. */
  function ClaimsIn(log: seq<Event>, id: nat): nat {
    if log == [] then 0 else ClaimsIn(log[..|log| - 1], id) + if Claims(log[|log| - 1], id) then 1 else 0
  }

  function CountAt(jobs: Table, id: nat): nat { if id in jobs then jobs[id].runCount else 0 }

  /** What one event means for one job: its id is never used again, and its count moves by its claim. */
  predicate Tallied(e: Event, id: nat) {
    var before, after := e.before.db, e.after.db;
    && before.nextJob <= after.nextJob && (id in before.jobs ==> id < before.nextJob)
    && (id in after.jobs ==> id in before.jobs || id >= before.nextJob)
    && (id in after.jobs ==> after.jobs[id].runCount == CountAt(before.jobs, id) + if Claims(e, id) then 1 else 0)
    && (Claims(e, id) ==>
          && id in before.jobs
          && (before.jobs[id].spec.maxRuns.Some? ==> before.jobs[id].runCount < before.jobs[id].spec.maxRuns.value))
  }

  predicate AllTallied(log: seq<Event>, id: nat, first: Point, last: Point) {
    if log == [] then first == last
    else
      var e := log[|log| - 1];
      e.after == last && Tallied(e, id) && AllTallied(log[..|log| - 1], id, first, e.before)
  }

  lemma SteppedIsTallied(e: Event, id: nat)
    requires Stepped(e) && Valid(e.before.db)
    ensures Tallied(e, id)
  {
  }

  lemma {:induction false} LoggedIsTallied(log: seq<Event>, commands: seq<Command>, first: Point, last: Point, id: nat)
    requires Valid(first.db) && Logged(log, commands, first, last)
    ensures AllTallied(log, id, first, last)
    decreases |log|
  {
    if log != [] {
      var n := |log| - 1;
      LoggedKeeps(log[..n], commands[..n], first, log[n].before);
      SteppedIsTallied(log[n], id);
      LoggedIsTallied(log[..n], commands[..n], first, log[n].before, id);
    }
  }

  lemma {:induction false} NotYetThere(log: seq<Event>, first: Point, last: Point, id: nat)
    requires AllTallied(log, id, first, last) && id >= last.db.nextJob && id !in last.db.jobs
    ensures id !in first.db.jobs && ClaimsIn(log, id) == 0
    decreases |log|
  {
    if log != [] { NotYetThere(log[..|log| - 1], first, log[|log| - 1].before, id); }
  }

  lemma {:induction false} TallyIsClaims(log: seq<Event>, first: Point, last: Point, id: nat)
    requires AllTallied(log, id, first, last) && id in last.db.jobs
    ensures last.db.jobs[id].runCount == CountAt(first.db.jobs, id) + ClaimsIn(log, id)
    decreases |log|
  {
    if log != [] {
      var init, mid := log[..|log| - 1], log[|log| - 1].before;
      if id in mid.db.jobs { TallyIsClaims(init, first, mid, id); } else { NotYetThere(init, first, mid, id); }
    }
  }

  lemma {:induction false} TallyWithinLimit(log: seq<Event>, first: Point, last: Point, id: nat, limit: nat)
    requires AllTallied(log, id, first, last) && LimitedTo(log, id, limit)
    ensures ClaimsIn(log, id) <= Max(0, limit - CountAt(first.db.jobs, id))
    decreases |log|
  {
    if log != [] {
      var init, e := log[..|log| - 1], log[|log| - 1];
      TallyWithinLimit(init, first, e.before, id, limit);
      if Claims(e, id) { TallyIsClaims(init, first, e.before, id); }
    }
  }

  /** Whenever the job is there it has a limit, of at most `limit`. */
  ghost predicate LimitedTo(log: seq<Event>, id: nat, limit: nat) {
    forall k :: 0 <= k < |log| && id in log[k].before.db.jobs ==>
      var max := log[k].before.db.jobs[id].spec.maxRuns; max.Some? && max.value <= limit
  }

  /**
   Along any log a job's count rises by its claims and by nothing else, no update, pause or resume touching it;
   and as long as its limit never passes `limit`, it is not claimed past it, counting the runs it had before.
   */
  lemma CountsAlongLog(log: seq<Event>, commands: seq<Command>, first: Point, last: Point, id: nat, limit: nat)
    requires Valid(first.db) && Logged(log, commands, first, last)
    ensures id in last.db.jobs ==> last.db.jobs[id].runCount == CountAt(first.db.jobs, id) + ClaimsIn(log, id)
    ensures LimitedTo(log, id, limit) ==> ClaimsIn(log, id) <= Max(0, limit - CountAt(first.db.jobs, id))
  {
    LoggedIsTallied(log, commands, first, last, id);
    if id in last.db.jobs { TallyIsClaims(log, first, last, id); }
    if LimitedTo(log, id, limit) { TallyWithinLimit(log, first, last, id, limit); }
  }

  /** A run of a job leaves behind exactly the alarm of a last run it could not cancel. */
  lemma RunLeaks(e: Event, leaked: bool)
    requires e.command.Run? && Valid(e.before.db) && Aligned(e.before.db.jobs, e.before.db.alarms)
    requires leaked ==> LastRun(e.before.db, e.command.id)
    requires (e.after.db == e.before.db && !leaked) || (e.command.id in e.before.db.jobs && e.after.db == Ran(e.before.db, e.command.id, leaked))
    ensures LeakedBy(e) == if leaked then AlarmOf(Lookup(e.before.db.jobs, e.command.id)) else {}
  {
    var id, jobs := e.command.id, e.before.db.jobs;
    if LastRun(e.before.db, id) {
      assert Claim(jobs, id)[id].runCount == jobs[id].runCount + 1;
      assert AlarmOf(Lookup(jobs, id)) == AlarmAt(jobs, id) <= e.before.db.alarms;
    }
  }

  lemma RunCounts(e: Event, leaked: bool)
    requires e.command.Run?
    requires (e.after.db == e.before.db && !leaked) || (e.command.id in e.before.db.jobs && e.after.db == Ran(e.before.db, e.command.id, leaked))
    ensures CountsMove(e)
  {
    ClaimExactly(e.before.db.jobs, e.command.id);
  }

  lemma CreateIsKept(e: Event)
    requires e.command.Create? && e.reply.Created? && RestStays(e) && Kept(e.before.db, e.after.db, e.Faults())
    requires CreatedAs(e.before.db, e.after.db, e.command.input, e.command.createKey, e.before.sessions, e.reply.created, e.Faults())
    ensures Alone(e)
  {
  }

  lemma UpdateIsKept(e: Event)
    requires e.command.Update? && e.reply.Changed? && RestStays(e) && Kept(e.before.db, e.after.db, e.Faults())
    requires UpdatedAs(e.before.db, e.after.db, e.command.id, e.command.patch, e.before.sessions, e.reply.changed, e.Faults())
    ensures Alone(e)
  {
  }

  lemma PauseIsKept(e: Event)
    requires e.command.SetPaused? && e.reply.Changed? && RestStays(e) && Kept(e.before.db, e.after.db, e.Faults())
    requires PausedAs(e.before.db, e.after.db, e.command.id, e.command.paused, e.reply.changed, e.Faults())
    ensures Alone(e)
  {
  }

  lemma DeleteIsKept(e: Event)
    requires e.command.Delete? && e.reply.Deleted? && RestStays(e) && Kept(e.before.db, e.after.db, e.Faults())
    requires DeletedAs(e.before.db, e.after.db, e.command.id, e.reply.deleted, e.Faults())
    ensures Alone(e)
  {
  }

  lemma RunIsKept(e: Event, leaked: bool)
    requires Performed(e) && e.Faults() >= 0 && e.command.Run? && Valid(e.before.db) && (leaked ==> LastRun(e.before.db, e.command.id))
    requires (e.after.db == e.before.db && !leaked) || (e.command.id in e.before.db.jobs && e.after.db == Ran(e.before.db, e.command.id, leaked))
    requires Valid(e.after.db) && Survives(e.before.db, e.after.db, 2)
    requires AlignedDb(e.before.db) ==>
               && AlignedDb(e.after.db)
               && OrphansOf(e.after.db) == OrphansOf(e.before.db) + if leaked then AlarmOf(Lookup(e.before.db.jobs, e.command.id)) else {}
    ensures Alone(e)
  {
    RunCounts(e, leaked);
    if AlignedDb(e.before.db) { RunLeaks(e, leaked); }
  }

  /**
   Any sequence of operations, one at a time, with failed calls anywhere.  Every operation answers as it
   promises; the rows stay in order, so no owner passes ten active jobs and every job not exhausted has
   runs left, and no exhausted job revives.  If no operation but a run met more than one failed call, every
   active job still has its alarm, and the alarms no job accounts for are those there were before and
   exactly the alarms of last runs that could not be cancelled.
   */
  method Serve(s: Service, commands: seq<Command>) returns (replies: seq<Reply>, ghost log: seq<Event>)
    requires Valid(s.db)
    modifies s
    ensures Logged(log, commands, old(s.Now()), s.Now()) && replies == Replies(log)
    ensures Valid(s.db) && Survives(old(s.db), s.db, 2)
    ensures AllCalm(log) && old(AlignedDb(s.db)) ==> AlignedDb(s.db) && OrphansOf(s.db) == old(OrphansOf(s.db)) + LeakedIn(log)
  {
    replies, log := ServeLogged(s, commands);
    LoggedKeeps(log, commands, old(s.Now()), s.Now());
  }

  lemma NothingLogged(first: Point)
    ensures Logged([], [], first, first) && Replies([]) == []
  {
  }

  lemma OneMoreCommand(commands: seq<Command>, k: nat)
    requires k < |commands|
    ensures commands[..k + 1] == commands[..k] + [commands[k]]
  {
  }

  method ServeLogged(s: Service, commands: seq<Command>) returns (replies: seq<Reply>, ghost log: seq<Event>)
    requires Valid(s.db)
    modifies s
    ensures Logged(log, commands, old(s.Now()), s.Now()) && replies == Replies(log)
  {
    ghost var first, asked: seq<Command> := s.Now(), [];
    replies, log := [], [];
    NothingLogged(first);
    for k := 0 to |commands|
      invariant asked == commands[..k]
      invariant Logged(log, asked, first, s.Now()) && replies == Replies(log)
    {
      var reply;
      reply, log := ServeNext(s, commands[k], log, asked, first);
      OneMoreCommand(commands, k);
      asked := asked + [commands[k]];
      replies := replies + [reply];
    }
    assert asked == commands;
  }

  method ServeNext(s: Service, command: Command, ghost log: seq<Event>, ghost commands: seq<Command>, ghost first: Point)
    returns (reply: Reply, ghost more: seq<Event>)
    requires Valid(first.db) && Logged(log, commands, first, s.Now())
    modifies s
    ensures Logged(more, commands + [command], first, s.Now())
    ensures Replies(more) == Replies(log) + [reply]
  {
    ghost var event;
    LoggedKeeps(log, commands, first, s.Now());
    reply, event := ServeOne(s, command);
    OneMoreEvent(log, commands, first, event);
    more := log + [event];
  }

  method ServeOne(s: Service, command: Command) returns (reply: Reply, ghost event: Event)
    requires Valid(s.db)
    modifies s
    ensures event == Event(command, reply, old(s.Now()), s.Now()) && Alone(event)
  {
    match command
    case Create(_, _) => reply, event := ServeCreate(s, command);
    case Update(_, _) => reply, event := ServeUpdate(s, command);
    case SetPaused(_, _) => reply, event := ServeSetPaused(s, command);
    case Delete(_) => reply, event := ServeDelete(s, command);
    case Run(_, _, _, _) => reply, event := ServeRun(s, command);
  }

  method ServeCreate(s: Service, command: Command) returns (reply: Reply, ghost event: Event)
    requires Valid(s.db) && command.Create?
    modifies s
    ensures event == Event(command, reply, old(s.Now()), s.Now()) && Alone(event)
  {
    var r := s.Create(command.input, command.createKey);
    reply := Created(r);
    event := Event(command, reply, old(s.Now()), s.Now());
    CreateIsKept(event);
  }

  method ServeUpdate(s: Service, command: Command) returns (reply: Reply, ghost event: Event)
    requires Valid(s.db) && command.Update?
    modifies s
    ensures event == Event(command, reply, old(s.Now()), s.Now()) && Alone(event)
  {
    var r := s.Update(command.id, command.patch);
    reply := Changed(r);
    event := Event(command, reply, old(s.Now()), s.Now());
    UpdateIsKept(event);
  }

  method ServeSetPaused(s: Service, command: Command) returns (reply: Reply, ghost event: Event)
    requires Valid(s.db) && command.SetPaused?
    modifies s
    ensures event == Event(command, reply, old(s.Now()), s.Now()) && Alone(event)
  {
    var r := s.SetPaused(command.id, command.paused);
    reply := Changed(r);
    event := Event(command, reply, old(s.Now()), s.Now());
    PauseIsKept(event);
  }

  method ServeDelete(s: Service, command: Command) returns (reply: Reply, ghost event: Event)
    requires Valid(s.db) && command.Delete?
    modifies s
    ensures event == Event(command, reply, old(s.Now()), s.Now()) && Alone(event)
  {
    var r := s.Delete(command.id);
    reply := Deleted(r);
    event := Event(command, reply, old(s.Now()), s.Now());
    DeleteIsKept(event);
  }

  method ServeRun(s: Service, command: Command) returns (reply: Reply, ghost event: Event)
    requires Valid(s.db) && command.Run?
    modifies s
    ensures event == Event(command, reply, old(s.Now()), s.Now()) && Alone(event)
  {
    ghost var leaked;
    var r;
    r, leaked := s.Run(command.id, command.runKey, command.now, command.newSession);
    reply := RunReply(r);
    event := Event(command, reply, old(s.Now()), s.Now());
    RunIsKept(event, leaked);
  }
}
