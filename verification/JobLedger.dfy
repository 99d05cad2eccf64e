/** The two stores a job lives in, its row and its native alarm, and what keeps them aligned (src/job-service.ts). */
module JobLedger {
  import opened Collections
  import opened Wrappers
  import opened Jobs

  const MAX_ACTIVE_JOBS_PER_OWNER := 10

  /** A live alarm in the durable object of a session. */
  datatype Alarm = Alarm(session: SessionId, id: nat)

  function AlarmFor(session: SessionId, schedule: Option<nat>): set<Alarm> {
    if schedule.Some? then {Alarm(session, schedule.value)} else {}
  }

  function AlarmAt(jobs: Table, id: nat): set<Alarm> {
    if id in jobs then AlarmFor(jobs[id].spec.session, jobs[id].schedule) else {}
  }

  /** This row accounts for this alarm. */
  predicate Holds(jobs: Table, id: nat, a: Alarm) { a in AlarmAt(jobs, id) }

  ghost predicate Tracked(jobs: Table, a: Alarm) { exists id :: Holds(jobs, id, a) }

  function ActiveJobs(jobs: Table): set<nat> { set id | id in jobs && jobs[id].status.Active? }

  ghost predicate RowOk(job: Job, nextAlarm: nat) {
    && ValidSpec(job.spec)
    && (!job.status.Active? ==> job.schedule.None?)
    && (!job.status.Exhausted? ==> HasRunsLeft(job))
    && (job.schedule.Some? ==> job.schedule.value < nextAlarm)
  }

  /** Two rows share neither an alarm nor an idempotency key. */
  predicate Apart(a: Job, b: Job) { (a.schedule.Some? ==> a.schedule != b.schedule) && (a.key.Some? ==> a.key != b.key) }

  /** What holds of the rows after every operation, whatever failed. */
  ghost predicate RowsOk(jobs: Table, nextJob: nat, nextAlarm: nat) {
    && (forall id :: id in jobs ==> id < nextJob && RowOk(jobs[id], nextAlarm))
    && (forall a, b :: a in jobs && b in jobs && a != b ==> Apart(jobs[a], jobs[b]))
    && |ActiveJobs(jobs)| <= 10
  }

  /** Every active job has an alarm, and every row's alarm is live. */
  ghost predicate Aligned(jobs: Table, alarms: set<Alarm>) {
    && (forall id :: id in jobs && jobs[id].status.Active? ==> jobs[id].schedule.Some?)
    && (forall id :: AlarmAt(jobs, id) <= alarms)
  }

  /** Live alarms that no row accounts for. */
  ghost function Orphans(jobs: Table, alarms: set<Alarm>): set<Alarm> { set a | a in alarms && !Tracked(jobs, a) }

  ghost predicate Issued(alarms: set<Alarm>, nextAlarm: nat) { forall a :: a in alarms ==> a.id < nextAlarm }

  ghost predicate SameElsewhere(jobs: Table, after: Table, id: nat) {
    forall k :: k != id ==> (k in jobs <==> k in after) && (k in jobs ==> jobs[k] == after[k])
  }

  /** With no orphan, the live alarms are exactly those of the active rows. */
  lemma AlignedExactly(jobs: Table, nextJob: nat, nextAlarm: nat, alarms: set<Alarm>)
    requires RowsOk(jobs, nextJob, nextAlarm) && Aligned(jobs, alarms) && Orphans(jobs, alarms) == {}
    ensures forall a :: a in alarms <==>
              exists id :: id in jobs && jobs[id].status.Active? && jobs[id].schedule == Some(a.id) && jobs[id].spec.session == a.session
    ensures forall id :: id in jobs && !jobs[id].status.Active? ==> jobs[id].schedule.None?
  {
    forall a | a in alarms
      ensures exists id :: id in jobs && jobs[id].status.Active? && jobs[id].schedule == Some(a.id) && jobs[id].spec.session == a.session
    {
      assert a !in Orphans(jobs, alarms);
      var id :| Holds(jobs, id, a);
      assert RowOk(jobs[id], nextAlarm);
    }
    forall a: Alarm, id | id in jobs && jobs[id].schedule == Some(a.id) && jobs[id].spec.session == a.session ensures a in alarms {
      assert a in AlarmAt(jobs, id);
    }
  }

  /** One row changes: what the rows account for changes by that row's alarm. */
  lemma TrackedMoves(jobs: Table, after: Table, id: nat, nextJob: nat, nextAlarm: nat, a: Alarm)
    requires RowsOk(jobs, nextJob, nextAlarm) && SameElsewhere(jobs, after, id)
    ensures Tracked(after, a) <==> a in AlarmAt(after, id) || (Tracked(jobs, a) && a !in AlarmAt(jobs, id))
  {
    if Tracked(after, a) {
      var k :| Holds(after, k, a);
      if k != id {
        assert Holds(jobs, k, a);
        if id in jobs { assert jobs[k].schedule != jobs[id].schedule; }
      }
    }
    if a in AlarmAt(after, id) { assert Holds(after, id, a); }
    if Tracked(jobs, a) && a !in AlarmAt(jobs, id) {
      var k :| Holds(jobs, k, a);
      assert k != id && Holds(after, k, a);
    }
  }

  /** If the alarm moves along with the row, the orphans stay as they were. */
  lemma OrphansStay(jobs: Table, after: Table, id: nat, nextJob: nat, nextAlarm: nat, alarms: set<Alarm>, live: set<Alarm>)
    requires RowsOk(jobs, nextJob, nextAlarm) && SameElsewhere(jobs, after, id)
    requires Issued(alarms, nextAlarm) && Aligned(jobs, alarms)
    requires AlarmAt(after, id) == AlarmAt(jobs, id) || forall a :: a in AlarmAt(after, id) ==> a.id >= nextAlarm
    requires live == alarms - AlarmAt(jobs, id) + AlarmAt(after, id)
    ensures Orphans(after, live) == Orphans(jobs, alarms)
  {
    forall a ensures a in Orphans(after, live) <==> a in Orphans(jobs, alarms) {
      TrackedMoves(jobs, after, id, nextJob, nextAlarm, a);
      if a in AlarmAt(jobs, id) { assert Holds(jobs, id, a); }
    }
  }

  lemma AlignmentStays(jobs: Table, after: Table, id: nat, nextJob: nat, nextAlarm: nat, alarms: set<Alarm>, live: set<Alarm>)
    requires RowsOk(jobs, nextJob, nextAlarm) && SameElsewhere(jobs, after, id) && Aligned(jobs, alarms)
    requires id in after && after[id].status.Active? ==> after[id].schedule.Some?
    requires live == alarms - AlarmAt(jobs, id) + AlarmAt(after, id)
    ensures Aligned(after, live)
  {
    forall k ensures AlarmAt(after, k) <= live {
      if k != id {
        assert AlarmAt(after, k) == AlarmAt(jobs, k) <= alarms;
        if k in jobs && id in jobs { assert jobs[k].schedule.Some? ==> jobs[k].schedule != jobs[id].schedule; }
      }
    }
    forall k | k in after && after[k].status.Active? ensures after[k].schedule.Some? {
      if k != id { assert k in jobs; }
    }
  }

  /** If the alarm moves along with the row, alignment and the orphans stay as they were. */
  lemma MovedTogether(jobs: Table, after: Table, id: nat, nextJob: nat, nextAlarm: nat, alarms: set<Alarm>, live: set<Alarm>)
    requires RowsOk(jobs, nextJob, nextAlarm) && SameElsewhere(jobs, after, id) && Issued(alarms, nextAlarm)
    requires AlarmAt(after, id) == AlarmAt(jobs, id) || forall a :: a in AlarmAt(after, id) ==> a.id >= nextAlarm
    requires id in after && after[id].status.Active? ==> after[id].schedule.Some?
    requires live == alarms - AlarmAt(jobs, id) + AlarmAt(after, id)
    ensures Aligned(jobs, alarms) ==> Aligned(after, live) && Orphans(after, live) == Orphans(jobs, alarms)
  {
    if Aligned(jobs, alarms) {
      OrphansStay(jobs, after, id, nextJob, nextAlarm, alarms, live);
      AlignmentStays(jobs, after, id, nextJob, nextAlarm, alarms, live);
    }
  }

  lemma RowsStayInRange(jobs: Table, after: Table, id: nat, nextJob: nat, nextAlarm: nat, nextAlarm': nat)
    requires RowsOk(jobs, nextJob, nextAlarm) && SameElsewhere(jobs, after, id) && nextAlarm <= nextAlarm' && id < nextJob
    requires id in after ==> RowOk(after[id], nextAlarm')
    ensures forall k :: k in after ==> k < nextJob && RowOk(after[k], nextAlarm')
  {
    forall k | k in after ensures k < nextJob && RowOk(after[k], nextAlarm') {
      if k != id { assert k in jobs && RowOk(jobs[k], nextAlarm); }
    }
  }

  /** What one row needs to differ from the others: a new alarm or its own, and a key of its own. */
  ghost predicate Unshared(jobs: Table, id: nat, row: Job, nextAlarm: nat) {
    && (row.schedule.Some? ==> AlarmOf(Some(row)) == AlarmAt(jobs, id) || row.schedule.value >= nextAlarm)
    && (row.key.Some? ==> forall k :: k in jobs && k != id ==> jobs[k].key != row.key)
  }

  lemma OneRowApart(jobs: Table, id: nat, row: Job, k: nat, nextJob: nat, nextAlarm: nat)
    requires RowsOk(jobs, nextJob, nextAlarm) && Unshared(jobs, id, row, nextAlarm) && k in jobs && k != id
    ensures Apart(row, jobs[k]) && Apart(jobs[k], row)
  {
    assert RowOk(jobs[k], nextAlarm);
    if id in jobs { assert Apart(jobs[id], jobs[k]); }
  }

  lemma RowsStayApart(jobs: Table, after: Table, id: nat, nextJob: nat, nextAlarm: nat, a: nat, b: nat)
    requires RowsOk(jobs, nextJob, nextAlarm) && SameElsewhere(jobs, after, id)
    requires id in after ==> Unshared(jobs, id, after[id], nextAlarm)
    requires a in after && b in after && a != b
    ensures Apart(after[a], after[b])
  {
    if a == id {
      OneRowApart(jobs, id, after[id], b, nextJob, nextAlarm);
    } else if b == id {
      OneRowApart(jobs, id, after[id], a, nextJob, nextAlarm);
    } else {
      assert after[a] == jobs[a] && after[b] == jobs[b];
    }
  }

  lemma ActiveStayFew(jobs: Table, after: Table, id: nat)
    requires SameElsewhere(jobs, after, id) && |ActiveJobs(jobs)| <= 10
    requires id in after && after[id].status.Active? ==> id in ActiveJobs(jobs) || |ActiveJobs(jobs)| < 10
    ensures |ActiveJobs(after)| <= 10
  {
    var before := ActiveJobs(jobs);
    var room := if id in after && after[id].status.Active? then before + {id} else before;
    assert ActiveJobs(after) <= room;
    SubsetCount(ActiveJobs(after), room);
    if id in before { assert before + {id} == before; }
  }

  /** Replacing, adding or deleting one row keeps the rows in order, if the row itself is and there is room. */
  lemma RowsStayOk(jobs: Table, after: Table, id: nat, nextJob: nat, nextAlarm: nat, nextAlarm': nat)
    requires RowsOk(jobs, nextJob, nextAlarm) && SameElsewhere(jobs, after, id) && nextAlarm <= nextAlarm' && id < nextJob
    requires id in after ==>
               && RowOk(after[id], nextAlarm') && Unshared(jobs, id, after[id], nextAlarm)
               && (after[id].status.Active? ==> id in ActiveJobs(jobs) || |ActiveJobs(jobs)| < 10)
    ensures RowsOk(after, nextJob, nextAlarm')
  {
    RowsStayInRange(jobs, after, id, nextJob, nextAlarm, nextAlarm');
    ActiveStayFew(jobs, after, id);
    forall a, b | a in after && b in after && a != b ensures Apart(after[a], after[b]) {
      RowsStayApart(jobs, after, id, nextJob, nextAlarm, a, b);
    }
  }

  // ---------------------------------------------------------------- both stores together

  /** The rows, the live alarms, and the next fresh id of each. */
  datatype Db = Db(jobs: Table, alarms: set<Alarm>, nextJob: nat, nextAlarm: nat)

  ghost predicate Valid(db: Db) { RowsOk(db.jobs, db.nextJob, db.nextAlarm) && Issued(db.alarms, db.nextAlarm) }

  function Lookup(jobs: Table, id: nat): Option<Job> { if id in jobs then Some(jobs[id]) else None }

  function With(jobs: Table, id: nat, to: Option<Job>): Table { if to.Some? then jobs[id := to.value] else jobs - {id} }

  lemma Unchanged(jobs: Table, id: nat)
    ensures With(jobs, id, Lookup(jobs, id)) == jobs
  {
  }

  /** The next alarm to be created is not yet there. */
  predicate Fresh(db: Db, session: SessionId) { Alarm(session, db.nextAlarm) !in db.alarms }

  function AlarmOf(row: Option<Job>): set<Alarm> {
    if row.Some? then AlarmFor(row.value.spec.session, row.value.schedule) else {}
  }

  /** What every operation keeps: no exhausted job revives, and one fault cannot part a job from its alarm. */
  ghost predicate Survives(before: Db, after: Db, faults: int) {
    && before.nextJob <= after.nextJob
    && (forall id :: id in after.jobs ==> id in before.jobs || id >= before.nextJob)
    && (forall id :: id in before.jobs && id in after.jobs && before.jobs[id].status.Exhausted? ==>
          after.jobs[id].status.Exhausted?)
    && (faults <= 1 && Aligned(before.jobs, before.alarms) ==>
          && Aligned(after.jobs, after.alarms)
          && Orphans(after.jobs, after.alarms) == Orphans(before.jobs, before.alarms))
  }

  /** No job that is there before and after has been counted a run, and a new one starts at none. */
  ghost predicate CountsStay(before: Table, after: Table) {
    forall id :: id in after ==> after[id].runCount == if id in before then before[id].runCount else 0
  }

  /** Everything an operation that runs no job promises, whatever fails. */
  ghost predicate Kept(before: Db, after: Db, faults: int) {
    Valid(after) && 0 <= faults && Survives(before, after, faults) && CountsStay(before.jobs, after.jobs)
  }

  /** An operation that changes nothing keeps everything. */
  lemma NothingMoved(db: Db, faults: int)
    requires Valid(db) && 0 <= faults
    ensures Kept(db, db, faults)
  {
  }

  /**
   How an operation that touches one row and creates at most one alarm can end: with at most one
   fault the alarm has moved along with the row; with more, whatever was left behind was at least issued.
   */
  predicate Moved(before: Db, after: Db, id: nat, to: Option<Job>, session: SessionId, faults: int) {
    && 0 <= faults && after.jobs == With(before.jobs, id, to)
    && (if after.nextAlarm == before.nextAlarm then after.alarms <= before.alarms
        else after.nextAlarm == before.nextAlarm + 1 && after.alarms <= before.alarms + {Alarm(session, before.nextAlarm)})
    && (faults <= 1 && AlarmOf(Lookup(before.jobs, id)) <= before.alarms ==>
          && after.alarms == before.alarms - AlarmOf(Lookup(before.jobs, id)) + AlarmOf(to)
          && (to.Some? && to.value.status.Active? ==> to.value.schedule.Some? || to == Lookup(before.jobs, id)))
  }

  /** A row this operation may leave in place of the one it found. */
  ghost predicate Fits(before: Db, id: nat, to: Job, nextAlarm: nat) {
    && to.runCount == (if id in before.jobs then before.jobs[id].runCount else 0)
    && (if id in before.jobs then to.key == before.jobs[id].key && (before.jobs[id].status.Exhausted? ==> to.status.Exhausted?)
        else id >= before.nextJob && (to.key.Some? ==> forall k :: k in before.jobs ==> before.jobs[k].key != to.key))
    && RowOk(to, nextAlarm)
    && (to.schedule.Some? ==>
          to.schedule.value >= before.nextAlarm || AlarmOf(Some(to)) == AlarmOf(Lookup(before.jobs, id)))
    && (to.status.Active? ==> id in ActiveJobs(before.jobs) || |ActiveJobs(before.jobs)| < 10)
  }

  lemma MovedIsValid(before: Db, after: Db, id: nat, to: Option<Job>, session: SessionId, faults: int)
    requires Valid(before) && Moved(before, after, id, to, session, faults)
    requires to.Some? ==> Fits(before, id, to.value, after.nextAlarm)
    requires before.nextJob <= after.nextJob && id < after.nextJob
    ensures Valid(after)
  {
    RowsStayOk(before.jobs, after.jobs, id, after.nextJob, before.nextAlarm, after.nextAlarm);
  }

  lemma MovedIsAligned(before: Db, after: Db, id: nat, to: Option<Job>, session: SessionId, faults: int)
    requires Valid(before) && Moved(before, after, id, to, session, faults) && faults <= 1
    requires to.Some? ==> Fits(before, id, to.value, after.nextAlarm)
    ensures Aligned(before.jobs, before.alarms) ==>
              && Aligned(after.jobs, after.alarms)
              && Orphans(after.jobs, after.alarms) == Orphans(before.jobs, before.alarms)
  {
    assert AlarmAt(before.jobs, id) == AlarmOf(Lookup(before.jobs, id));
    assert AlarmAt(after.jobs, id) == AlarmOf(to);
    if Aligned(before.jobs, before.alarms) {
      MovedTogether(before.jobs, after.jobs, id, before.nextJob, before.nextAlarm, before.alarms, after.alarms);
    }
  }

  /** One row moved with its alarm: the rows stay in order, and with at most one fault so does the alignment. */
  lemma MovedSurvives(before: Db, after: Db, id: nat, to: Option<Job>, session: SessionId, faults: int)
    requires Valid(before) && Moved(before, after, id, to, session, faults)
    requires to.Some? ==> Fits(before, id, to.value, after.nextAlarm)
    requires before.nextJob <= after.nextJob && id < after.nextJob
    ensures Kept(before, after, faults)
  {
    MovedIsValid(before, after, id, to, session, faults);
    if faults <= 1 { MovedIsAligned(before, after, id, to, session, faults); }
  }

  lemma SurvivesAgain(first: Db, second: Db, third: Db, faults: int, more: int)
    requires Valid(first) && Survives(first, second, faults) && Survives(second, third, more)
    ensures Survives(first, third, Max(faults, more))
  {
    forall id | id in first.jobs && id in third.jobs && first.jobs[id].status.Exhausted? ensures third.jobs[id].status.Exhausted? {
      assert id in second.jobs || id >= second.nextJob;
    }
  }
}
