/** Many writers of one desk board, their reads and compare-and-sets interleaved in any order. */
module DeskWriters {
  import opened Wrappers
  import opened Utf16
  import opened DeskBoard
  import opened DeskStore

  /** Where a writer is: about to read, holding what it computed from a read, or finished. */
  datatype Phase =
    | Reading(attempt: nat)
    | Holding(attempt: nat, next: Board, version: Stored, readAt: Text, at: Text, seen: nat)
    | Saved(board: Board, attempts: nat)
    | Conflicted
    | Failed

  datatype Writer = Writer(edit: Edit, phase: Phase)

  /** `log` is ghost bookkeeping: the commits so far, in order. */
  datatype Desk = Desk(row: Stored, log: seq<Commit>, writers: seq<Writer>)

  /** A writer reads, compares and sets, or hits a database error; or somebody clears the board. */
  datatype Step = ReadStep(i: nat, readAt: Text, at: Text) | CasStep(i: nat) | ErrorStep(i: nat) | ClearStep(at: Text)

  predicate Enabled(d: Desk, s: Step) {
    match s
    case ReadStep(i, _, _) => i < |d.writers| && d.writers[i].phase.Reading?
    case CasStep(i) => i < |d.writers| && d.writers[i].phase.Holding?
    case ErrorStep(i) => i < |d.writers| && (d.writers[i].phase.Reading? || d.writers[i].phase.Holding?)
    case ClearStep(_) => true
  }

  function Move(d: Desk, i: nat, phase: Phase): Desk
    requires i < |d.writers|
  {
    d.(writers := d.writers[i := d.writers[i].(phase := phase)])
  }

  function AfterRead(d: Desk, i: nat, readAt: Text, at: Text, remote: Text -> bool): Phase
    requires i < |d.writers| && d.writers[i].phase.Reading?
  {
    var next := ApplyEdit(d.writers[i].edit, View(d.row, readAt, remote), at, remote);
    if next.Err? then Failed
    else Holding(d.writers[i].phase.attempt, next.value, Version(d.row), readAt, at, |d.log|)
  }

  function AfterLoss(attempt: nat): Phase { if attempt < DESK_WRITE_MAX_ATTEMPTS then Reading(attempt + 1) else Conflicted }

  function AfterCas(d: Desk, i: nat): Desk
    requires i < |d.writers| && d.writers[i].phase.Holding?
  {
    var p := d.writers[i].phase;
    var (row, written) := CompareAndSet(d.row, p.next, p.version);
    if written then
      Move(d.(row := row, log := d.log + [Edited(i, d.writers[i].edit, p.readAt, p.at)]), i, Saved(p.next, p.attempt))
    else Move(d, i, AfterLoss(p.attempt))
  }

  function Next(d: Desk, s: Step, remote: Text -> bool): Desk
    requires Enabled(d, s)
  {
    match s
    case ReadStep(i, readAt, at) => Move(d, i, AfterRead(d, i, readAt, at, remote))
    case CasStep(i) => AfterCas(d, i)
    case ErrorStep(i) => Move(d, i, Failed)
    case ClearStep(at) => d.(row := Some(Encode(EmptyDeskBoard(at))), log := d.log + [Cleared(at)])
  }

  // ---------------------------------------------------------------- invariant

  function Open(edits: seq<Edit>, row: Stored): Desk {
    Desk(row, [], seq(|edits|, i requires 0 <= i < |edits| => Writer(edits[i], Reading(1))))
  }

  /** What a writer holds was computed from the row as it stood after the first `seen` commits. */
  ghost predicate HoldsTruly(w: Writer, log: seq<Commit>, start: Stored, remote: Text -> bool) {
    w.phase.Holding? ==>
      && w.phase.seen <= |log|
      && var row := Replay(start, log[..w.phase.seen], remote);
         && w.phase.version == Version(row)
         && ApplyEdit(w.edit, View(row, w.phase.readAt, remote), w.phase.at, remote) == Ok(w.phase.next)
  }

  /** Every failed attempt is paid for by a commit of somebody else, one each. */
  predicate PaidFor(w: Writer, i: nat, log: seq<Commit>) {
    && (w.phase.Reading? ==> 1 <= w.phase.attempt <= DESK_WRITE_MAX_ATTEMPTS && w.phase.attempt - 1 <= |log|)
    && (w.phase.Holding? ==> 1 <= w.phase.attempt <= DESK_WRITE_MAX_ATTEMPTS && w.phase.attempt - 1 <= w.phase.seen)
    && (w.phase.Conflicted? ==> DESK_WRITE_MAX_ATTEMPTS <= |log|)
  }

  /** A writer's commit is in the log exactly if it has stored, and then once. */
  ghost predicate Logged(d: Desk) {
    && (forall k :: 0 <= k < |d.log| && d.log[k].Edited? ==>
          && d.log[k].writer < |d.writers|
          && d.writers[d.log[k].writer].phase.Saved? && d.writers[d.log[k].writer].edit == d.log[k].edit)
    && (forall k, l :: 0 <= k < l < |d.log| && d.log[k].Edited? && d.log[l].Edited? ==> d.log[k].writer != d.log[l].writer)
    && (forall i :: 0 <= i < |d.writers| && d.writers[i].phase.Saved? ==> Committed(d.log, i))
  }

  ghost predicate Committed(log: seq<Commit>, i: nat) { exists k :: 0 <= k < |log| && log[k].Edited? && log[k].writer == i }

  ghost predicate WritersOk(writers: seq<Writer>, log: seq<Commit>, start: Stored, remote: Text -> bool) {
    forall i :: 0 <= i < |writers| ==>
      HoldsTruly(writers[i], log, start, remote) && (start != Some(Blank) ==> PaidFor(writers[i], i, log))
  }

  ghost predicate Inv(d: Desk, start: Stored, remote: Text -> bool) {
    && d.row == Replay(start, d.log, remote)
    && WritersOk(d.writers, d.log, start, remote)
    && Logged(d)
  }

  lemma OpenInv(edits: seq<Edit>, row: Stored, remote: Text -> bool)
    ensures Inv(Open(edits, row), row, remote)
  {
  }

  /** The log only grows, so what was held truly still is. */
  lemma StillTrue(w: Writer, log: seq<Commit>, more: seq<Commit>, start: Stored, remote: Text -> bool)
    requires HoldsTruly(w, log, start, remote) && log <= more
    ensures HoldsTruly(w, more, start, remote)
  {
    if w.phase.Holding? { assert more[..w.phase.seen] == log[..w.phase.seen]; }
  }

  lemma MoveKeepsLogged(d: Desk, i: nat, phase: Phase)
    requires Logged(d) && i < |d.writers| && !d.writers[i].phase.Saved? && !phase.Saved?
    ensures Logged(Move(d, i, phase))
  {
  }

  /** A writer that commits nothing moves on, if what it holds and what it has paid are in order. */
  lemma MoveKeepsInv(d: Desk, i: nat, phase: Phase, start: Stored, remote: Text -> bool)
    requires Inv(d, start, remote) && i < |d.writers| && !d.writers[i].phase.Saved? && !phase.Saved?
    requires HoldsTruly(d.writers[i].(phase := phase), d.log, start, remote)
    requires start != Some(Blank) ==> PaidFor(d.writers[i].(phase := phase), i, d.log)
    ensures Inv(Move(d, i, phase), start, remote)
  {
    MoveKeepsLogged(d, i, phase);
  }

  lemma ReadKeepsInv(d: Desk, i: nat, readAt: Text, at: Text, start: Stored, remote: Text -> bool)
    requires Inv(d, start, remote) && i < |d.writers| && d.writers[i].phase.Reading?
    ensures Inv(Move(d, i, AfterRead(d, i, readAt, at, remote)), start, remote)
  {
    assert d.log[..|d.log|] == d.log;
    assert PaidFor(d.writers[i], i, d.log) || start == Some(Blank);
    MoveKeepsInv(d, i, AfterRead(d, i, readAt, at, remote), start, remote);
  }

  lemma ErrorKeepsInv(d: Desk, i: nat, start: Stored, remote: Text -> bool)
    requires Inv(d, start, remote) && i < |d.writers| && !d.writers[i].phase.Saved?
    ensures Inv(Move(d, i, Failed), start, remote)
  {
    MoveKeepsInv(d, i, Failed, start, remote);
  }

  /** One more commit leaves every writer in order; so does storing. */
  lemma CommitKeepsWriters(writers: seq<Writer>, log: seq<Commit>, c: Commit, start: Stored, remote: Text -> bool)
    requires WritersOk(writers, log, start, remote)
    ensures WritersOk(writers, log + [c], start, remote)
  {
    forall i | 0 <= i < |writers| ensures HoldsTruly(writers[i], log + [c], start, remote) {
      StillTrue(writers[i], log, log + [c], start, remote);
    }
  }

  lemma SavingKeepsWriters(writers: seq<Writer>, i: nat, phase: Phase, log: seq<Commit>, start: Stored, remote: Text -> bool)
    requires WritersOk(writers, log, start, remote) && i < |writers| && phase.Saved?
    ensures WritersOk(writers[i := writers[i].(phase := phase)], log, start, remote)
  {
  }

  lemma ClearKeepsInv(d: Desk, at: Text, start: Stored, remote: Text -> bool)
    requires Inv(d, start, remote)
    ensures Inv(d.(row := Some(Encode(EmptyDeskBoard(at))), log := d.log + [Cleared(at)]), start, remote)
  {
    var log := d.log + [Cleared(at)];
    ReplayOne(start, d.log, Cleared(at), remote);
    CommitKeepsWriters(d.writers, d.log, Cleared(at), start, remote);
    forall i | 0 <= i < |d.writers| && d.writers[i].phase.Saved? ensures Committed(log, i) {
      var k :| 0 <= k < |d.log| && d.log[k].Edited? && d.log[k].writer == i;
      assert log[k] == d.log[k];
    }
  }

  /** With no commit since the read, the race is won. */
  lemma FreshWins(d: Desk, i: nat, start: Stored, remote: Text -> bool)
    requires Inv(d, start, remote) && i < |d.writers| && d.writers[i].phase.Holding? && start != Some(Blank)
    requires d.writers[i].phase.seen == |d.log|
    ensures CompareAndSet(d.row, d.writers[i].phase.next, d.writers[i].phase.version).1
  {
    var p := d.writers[i].phase;
    assert HoldsTruly(d.writers[i], d.log, start, remote);
    assert d.log[..p.seen] == d.log;
    ReplayNeverBlank(start, d.log, remote);
    CompareAndSetExactly(d.row, d.row, p.next);
  }

  /** A lost race means somebody committed since the read. */
  lemma LostMeansCommit(d: Desk, i: nat, start: Stored, remote: Text -> bool)
    requires Inv(d, start, remote) && i < |d.writers| && d.writers[i].phase.Holding? && start != Some(Blank)
    requires !CompareAndSet(d.row, d.writers[i].phase.next, d.writers[i].phase.version).1
    ensures d.writers[i].phase.seen < |d.log|
  {
    assert HoldsTruly(d.writers[i], d.log, start, remote);
    if d.writers[i].phase.seen == |d.log| { FreshWins(d, i, start, remote); }
  }

  lemma LossPaidFor(d: Desk, i: nat, start: Stored, remote: Text -> bool)
    requires Inv(d, start, remote) && i < |d.writers| && d.writers[i].phase.Holding? && start != Some(Blank)
    requires !CompareAndSet(d.row, d.writers[i].phase.next, d.writers[i].phase.version).1
    ensures PaidFor(d.writers[i].(phase := AfterLoss(d.writers[i].phase.attempt)), i, d.log)
  {
    LostMeansCommit(d, i, start, remote);
    assert PaidFor(d.writers[i], i, d.log);
  }

  lemma LostKeepsInv(d: Desk, i: nat, start: Stored, remote: Text -> bool)
    requires Inv(d, start, remote) && i < |d.writers| && d.writers[i].phase.Holding?
    requires !CompareAndSet(d.row, d.writers[i].phase.next, d.writers[i].phase.version).1
    ensures Inv(AfterCas(d, i), start, remote)
  {
    if start != Some(Blank) { LossPaidFor(d, i, start, remote); }
    MoveKeepsInv(d, i, AfterLoss(d.writers[i].phase.attempt), start, remote);
  }

  /** A won race was computed from what the row holds: it is the row that was read, or it reads the same. */
  lemma WonReadsTheSame(d: Desk, i: nat, start: Stored, remote: Text -> bool)
    requires Inv(d, start, remote) && i < |d.writers| && d.writers[i].phase.Holding?
    requires CompareAndSet(d.row, d.writers[i].phase.next, d.writers[i].phase.version).1
    ensures var p := d.writers[i].phase; ApplyEdit(d.writers[i].edit, View(d.row, p.readAt, remote), p.at, remote) == Ok(p.next)
  {
    var p := d.writers[i].phase;
    assert HoldsTruly(d.writers[i], d.log, start, remote);
    var read := Replay(start, d.log[..p.seen], remote);
    CompareAndSetExactly(read, d.row, p.next);
    assert View(read, p.readAt, remote) == View(d.row, p.readAt, remote);
  }

  /** A won race commits exactly what replaying the edit on the row would. */
  lemma WonIsReplay(d: Desk, i: nat, start: Stored, remote: Text -> bool)
    requires Inv(d, start, remote) && i < |d.writers| && d.writers[i].phase.Holding?
    requires CompareAndSet(d.row, d.writers[i].phase.next, d.writers[i].phase.version).1
    ensures var p := d.writers[i].phase;
            Some(Encode(p.next)) == AfterCommit(d.row, Edited(i, d.writers[i].edit, p.readAt, p.at), remote)
  {
    WonReadsTheSame(d, i, start, remote);
  }

  lemma WonKeepsLogged(d: Desk, i: nat, next: Board, c: Commit)
    requires Logged(d) && i < |d.writers| && d.writers[i].phase.Holding?
    requires c.Edited? && c.writer == i && c.edit == d.writers[i].edit
    ensures Logged(Move(d.(log := d.log + [c]), i, Saved(next, d.writers[i].phase.attempt)))
  {
    var log := d.log + [c];
    forall j | 0 <= j < |d.writers| && (j == i || d.writers[j].phase.Saved?) ensures Committed(log, j) {
      if j == i {
        assert log[|d.log|] == c;
      } else {
        var k :| 0 <= k < |d.log| && d.log[k].Edited? && d.log[k].writer == j;
        assert log[k] == d.log[k];
      }
    }
  }

  lemma WonKeepsInv(d: Desk, i: nat, start: Stored, remote: Text -> bool)
    requires Inv(d, start, remote) && i < |d.writers| && d.writers[i].phase.Holding?
    requires CompareAndSet(d.row, d.writers[i].phase.next, d.writers[i].phase.version).1
    ensures Inv(AfterCas(d, i), start, remote)
  {
    var p := d.writers[i].phase;
    var c := Edited(i, d.writers[i].edit, p.readAt, p.at);
    WonIsReplay(d, i, start, remote);
    ReplayOne(start, d.log, c, remote);
    WonKeepsLogged(d, i, p.next, c);
    CommitKeepsWriters(d.writers, d.log, c, start, remote);
    SavingKeepsWriters(d.writers, i, Saved(p.next, p.attempt), d.log + [c], start, remote);
  }

  lemma StepKeepsInv(d: Desk, s: Step, start: Stored, remote: Text -> bool)
    requires Inv(d, start, remote) && Enabled(d, s)
    ensures Inv(Next(d, s, remote), start, remote)
  {
    match s
    case ReadStep(i, readAt, at) => ReadKeepsInv(d, i, readAt, at, start, remote);
    case CasStep(i) =>
      if CompareAndSet(d.row, d.writers[i].phase.next, d.writers[i].phase.version).1 {
        WonKeepsInv(d, i, start, remote);
      } else {
        LostKeepsInv(d, i, start, remote);
      }
    case ErrorStep(i) => ErrorKeepsInv(d, i, start, remote);
    case ClearStep(at) => ClearKeepsInv(d, at, start, remote);
  }

  // ---------------------------------------------------------------- whole runs

  /** The steps, each enabled when its turn comes, lead from the first desk to the last. */
  ghost predicate Runs(d: Desk, steps: seq<Step>, last: Desk, remote: Text -> bool)
    decreases |steps|
  {
    if steps == [] then d == last else Enabled(d, steps[0]) && Runs(Next(d, steps[0], remote), steps[1..], last, remote)
  }

  lemma {:induction false} RunKeepsInv(d: Desk, steps: seq<Step>, last: Desk, start: Stored, remote: Text -> bool)
    requires Inv(d, start, remote) && Runs(d, steps, last, remote)
    ensures Inv(last, start, remote) && |last.writers| == |d.writers|
    decreases |steps|
  {
    if steps != [] {
      StepKeepsInv(d, steps[0], start, remote);
      RunKeepsInv(Next(d, steps[0], remote), steps[1..], last, start, remote);
    }
  }

  /**
   However reads and writes interleave, the stored board is the committed changes applied one after
   another in commit order, and the commits are exactly the edits of the writers that succeeded, once each.
   */
  lemma SerialisedByCas(edits: seq<Edit>, row: Stored, steps: seq<Step>, last: Desk, remote: Text -> bool)
    requires Runs(Open(edits, row), steps, last, remote)
    ensures last.row == Replay(row, last.log, remote) && |last.writers| == |edits|
    ensures Logged(last)
  {
    OpenInv(edits, row, remote);
    RunKeepsInv(Open(edits, row), steps, last, row, remote);
  }

  /** Starting from nothing stored, or from a good board, every board ever stored is good. */
  lemma BoardsStayGood(edits: seq<Edit>, row: Stored, steps: seq<Step>, last: Desk, now: Text, remote: Text -> bool)
    requires Runs(Open(edits, row), steps, last, remote) && GoodStored(row, remote)
    ensures GoodStored(last.row, remote) && GoodBoard(View(last.row, now, remote), remote)
  {
    SerialisedByCas(edits, row, steps, last, remote);
    ReplayKeepsGood(row, last.log, remote);
    GoodView(last.row, now, remote);
  }

  /** A writer that gives up has lost to at least twelve commits, none of them its own. */
  lemma ConflictMeansTwelveCommits(edits: seq<Edit>, row: Stored, steps: seq<Step>, last: Desk, i: nat, remote: Text -> bool)
    requires Runs(Open(edits, row), steps, last, remote) && row != Some(Blank)
    requires i < |last.writers| && last.writers[i].phase.Conflicted?
    ensures |last.log| >= 12 && NoneBy(last.log, i)
  {
    OpenInv(edits, row, remote);
    RunKeepsInv(Open(edits, row), steps, last, row, remote);
    assert PaidFor(last.writers[i], i, last.log);
  }

  ghost predicate NeverCleared(steps: seq<Step>) { forall k :: 0 <= k < |steps| ==> !steps[k].ClearStep? }

  ghost predicate AllEdits(log: seq<Commit>) { forall k :: 0 <= k < |log| ==> log[k].Edited? }

  lemma {:induction false} OnlyEdits(d: Desk, steps: seq<Step>, last: Desk, remote: Text -> bool)
    requires Runs(d, steps, last, remote) && NeverCleared(steps) && AllEdits(d.log)
    ensures AllEdits(last.log)
    decreases |steps|
  {
    if steps != [] {
      forall k | 0 <= k < |steps[1..]| ensures !steps[1..][k].ClearStep? { assert steps[1..][k] == steps[k + 1]; }
      OnlyEdits(Next(d, steps[0], remote), steps[1..], last, remote);
    }
  }

  /** Different writers' commits can be no more than the writers other than one that has none. */
  lemma {:induction false} LogIsShort(log: seq<Commit>, n: nat, i: nat, busy: set<nat>)
    requires AllEdits(log) && i < n && i !in busy
    requires forall k :: 0 <= k < |log| ==> log[k].writer in busy
    requires forall k, l :: 0 <= k < l < |log| ==> log[k].writer != log[l].writer
    ensures |log| <= |busy|
    decreases |log|
  {
    if log != [] {
      var w := log[|log| - 1].writer;
      LogIsShort(log[..|log| - 1], n, i, busy - {w});
    }
  }

  function Below(n: nat): (s: set<nat>)
    ensures |s| == n && forall k: nat :: k in s <==> k < n
  {
    if n == 0 then {} else assert n - 1 !in Below(n - 1); Below(n - 1) + {n - 1}
  }

  /** With at most twelve writers of one edit each, nobody ever gives up, in any interleaving. */
  lemma NoConflictAmongTwelve(edits: seq<Edit>, row: Stored, steps: seq<Step>, last: Desk, i: nat, remote: Text -> bool)
    requires Runs(Open(edits, row), steps, last, remote) && row != Some(Blank)
    requires |edits| <= 12 && NeverCleared(steps) && i < |edits|
    ensures i < |last.writers| && !last.writers[i].phase.Conflicted?
  {
    SerialisedByCas(edits, row, steps, last, remote);
    OnlyEdits(Open(edits, row), steps, last, remote);
    if last.writers[i].phase.Conflicted? {
      ConflictMeansTwelveCommits(edits, row, steps, last, i, remote);
      LogIsShort(last.log, |edits|, i, Below(|edits|) - {i});
    }
  }

  // ---------------------------------------------------------------- what a step and a commit do

  /** A writer fails only on an edit that is refused, and gives up only on losing its twelfth race. */
  lemma StepExactly(d: Desk, i: nat, readAt: Text, at: Text, remote: Text -> bool)
    requires i < |d.writers|
    ensures d.writers[i].phase.Reading? ==>
              var after := Next(d, ReadStep(i, readAt, at), remote);
              && after.row == d.row && after.log == d.log
              && (after.writers[i].phase.Failed? <==> ApplyEdit(d.writers[i].edit, View(d.row, readAt, remote), at, remote).Err?)
              && (after.writers[i].phase.Failed? || after.writers[i].phase.Holding?)
    ensures d.writers[i].phase.Holding? ==>
              var p, after := d.writers[i].phase, Next(d, CasStep(i), remote);
              && (after.writers[i].phase.Saved? <==> d.row == p.version)
              && (after.writers[i].phase.Saved? ==>
                    after.row == Some(Encode(p.next)) && after.writers[i].phase == Saved(p.next, p.attempt) && |after.log| == |d.log| + 1)
              && (!after.writers[i].phase.Saved? ==>
                    && after.row == d.row && after.log == d.log
                    && after.writers[i].phase == if p.attempt < 12 then Reading(p.attempt + 1) else Conflicted)
  {
  }

  /** A writer that nobody comes between writes at once what its edit makes of the board. */
  lemma UndisturbedWriterSaves(d: Desk, i: nat, readAt: Text, at: Text, remote: Text -> bool)
    requires i < |d.writers| && d.writers[i].phase.Reading? && d.row != Some(Blank)
    ensures var next := ApplyEdit(d.writers[i].edit, View(d.row, readAt, remote), at, remote);
            next.Ok? ==>
              var read := Next(d, ReadStep(i, readAt, at), remote);
              && Enabled(read, CasStep(i))
              && Next(read, CasStep(i), remote).row == Some(Encode(next.value))
              && Next(read, CasStep(i), remote).writers[i].phase == Saved(next.value, d.writers[i].phase.attempt)
  {
    StepExactly(d, i, readAt, at, remote);
  }

  /** What the board shows after an edit: the card that was sent is the first one; the card that was to go is not there. */
  ghost predicate Shows(board: Board, edit: Edit, at: Text) {
    && board.updatedAt == at
    && (edit.Upsert? ==> edit.card.RawCard? && board.cards != [] && Sent(edit.card.id, board.cards[0].id.text) && board.cards[0].updatedAt == at)
    && (edit.Remove? ==> edit.id.Str? && forall c :: c in board.cards ==> c.id.text != Trim(edit.id.text))
  }

  lemma EditShows(edit: Edit, board: Board, at: Text, remote: Text -> bool)
    requires GoodBoard(board, remote) && ApplyEdit(edit, board, at, remote).Ok?
    ensures Shows(ApplyEdit(edit, board, at, remote).value, edit, at)
  {
    assert Trim([]) == [];
    match edit
    case Upsert(card) => UpsertPlaces(board, card, at, remote);
    case Remove(id) => RemovePlaces(board, id, at, remote);
  }

  /** The commit at `k` changed the board that was there before it. */
  ghost predicate Took(log: seq<Commit>, k: nat, start: Stored, remote: Text -> bool)
    requires k < |log|
  {
    log[k].Edited? ==> ApplyEdit(log[k].edit, View(Replay(start, log[..k], remote), log[k].readAt, remote), log[k].at, remote).Ok?
  }

  ghost predicate AllTook(log: seq<Commit>, start: Stored, remote: Text -> bool) {
    forall k :: 0 <= k < |log| ==> Took(log, k, start, remote)
  }

  lemma OneMoreTook(log: seq<Commit>, c: Commit, start: Stored, remote: Text -> bool)
    requires AllTook(log, start, remote)
    requires c.Edited? ==> ApplyEdit(c.edit, View(Replay(start, log, remote), c.readAt, remote), c.at, remote).Ok?
    ensures AllTook(log + [c], start, remote)
  {
    var more := log + [c];
    forall k | 0 <= k < |more| ensures Took(more, k, start, remote) {
      if k < |log| {
        assert more[..k] == log[..k] && Took(log, k, start, remote);
      } else {
        assert more[..k] == log;
      }
    }
  }

  lemma StepTakes(d: Desk, s: Step, start: Stored, remote: Text -> bool)
    requires Inv(d, start, remote) && Enabled(d, s) && AllTook(d.log, start, remote)
    ensures AllTook(Next(d, s, remote).log, start, remote)
    ensures |Next(d, s, remote).writers| == |d.writers|
    ensures forall i :: 0 <= i < |d.writers| ==> Next(d, s, remote).writers[i].edit == d.writers[i].edit
  {
    if s.ClearStep? {
      OneMoreTook(d.log, Cleared(s.at), start, remote);
    } else if s.CasStep? {
      var p := d.writers[s.i].phase;
      if CompareAndSet(d.row, p.next, p.version).1 {
        WonReadsTheSame(d, s.i, start, remote);
        OneMoreTook(d.log, Edited(s.i, d.writers[s.i].edit, p.readAt, p.at), start, remote);
      }
    }
  }

  lemma {:induction false} RunTakes(d: Desk, steps: seq<Step>, last: Desk, start: Stored, remote: Text -> bool)
    requires Inv(d, start, remote) && Runs(d, steps, last, remote) && AllTook(d.log, start, remote)
    ensures AllTook(last.log, start, remote) && |last.writers| == |d.writers|
    ensures forall i :: 0 <= i < |d.writers| ==> last.writers[i].edit == d.writers[i].edit
    decreases |steps|
  {
    if steps != [] {
      StepKeepsInv(d, steps[0], start, remote);
      StepTakes(d, steps[0], start, remote);
      RunTakes(Next(d, steps[0], remote), steps[1..], last, start, remote);
    }
  }

  /** Reading a board back keeps what it shows. */
  lemma StillShows(b: Board, edit: Edit, at: Text, now: Text, remote: Text -> bool)
    requires GoodBoard(b, remote) && Shows(b, edit, at)
    ensures Shows(View(Some(Encode(b)), now, remote), edit, at)
  {
    BoardReparses(b, now, remote);
    SettledCardsAre(b.cards);
    var read := SettledCards(b.cards);
    forall c | c in read ensures exists k :: 0 <= k < |b.cards| && c == Settled(b.cards[k]) {
      var k :| 0 <= k < |read| && read[k] == c;
      assert c == Settled(b.cards[k]);
    }
  }

  /** The last successful edit shows: whoever reads the row next finds its card in front, or finds it gone. */
  lemma LastEditShows(edits: seq<Edit>, row: Stored, steps: seq<Step>, last: Desk, now: Text, remote: Text -> bool)
    requires Runs(Open(edits, row), steps, last, remote) && GoodStored(row, remote)
    requires last.log != [] && last.log[|last.log| - 1].Edited?
    ensures var c := last.log[|last.log| - 1];
            && c.writer < |edits| && c.edit == edits[c.writer]
            && Shows(View(last.row, now, remote), c.edit, c.at)
  {
    var n := |last.log| - 1;
    var c := last.log[n];
    SerialisedByCas(edits, row, steps, last, remote);
    OpenInv(edits, row, remote);
    RunTakes(Open(edits, row), steps, last, row, remote);
    assert Took(last.log, n, row, remote);
    var before := Replay(row, last.log[..n], remote);
    ReplayKeepsGood(row, last.log[..n], remote);
    ReplayKeepsGood(row, last.log, remote);
    GoodView(before, c.readAt, remote);
    var board := View(before, c.readAt, remote);
    EditShows(c.edit, board, c.at, remote);
    EditStaysGood(c.edit, board, c.at, remote);
    StillShows(ApplyEdit(c.edit, board, c.at, remote).value, c.edit, c.at, now, remote);
  }

  lemma EditStaysGood(edit: Edit, board: Board, at: Text, remote: Text -> bool)
    requires GoodBoard(board, remote) && ApplyEdit(edit, board, at, remote).Ok?
    ensures GoodBoard(ApplyEdit(edit, board, at, remote).value, remote)
  {
    match edit
    case Upsert(card) => UpsertPlaces(board, card, at, remote);
    case Remove(id) => RemovePlaces(board, id, at, remote);
  }

  /** A row holding the empty string can never be written: it reads as no row, and no row can be inserted over it. */
  lemma BlankStays(d: Desk, s: Step, remote: Text -> bool)
    requires Enabled(d, s) && d.row == Some(Blank) && !s.ClearStep?
    requires forall i :: 0 <= i < |d.writers| && d.writers[i].phase.Holding? ==> d.writers[i].phase.version == None
    ensures Next(d, s, remote).row == Some(Blank) && Next(d, s, remote).log == d.log
    ensures forall i :: 0 <= i < |d.writers| && Next(d, s, remote).writers[i].phase.Holding? ==>
              Next(d, s, remote).writers[i].phase.version == None
  {
  }

  /** And so it stays in every run without a clearing: no writer ever succeeds, and nothing is logged. */
  lemma {:induction false} BlankStaysForever(d: Desk, steps: seq<Step>, last: Desk, remote: Text -> bool)
    requires Runs(d, steps, last, remote) && NeverCleared(steps) && d.row == Some(Blank)
    requires forall i :: 0 <= i < |d.writers| && d.writers[i].phase.Holding? ==> d.writers[i].phase.version == None
    ensures last.row == Some(Blank) && last.log == d.log
    decreases |steps|
  {
    if steps != [] {
      forall k | 0 <= k < |steps[1..]| ensures !steps[1..][k].ClearStep? { assert steps[1..][k] == steps[k + 1]; }
      BlankStays(d, steps[0], remote);
      BlankStaysForever(Next(d, steps[0], remote), steps[1..], last, remote);
    }
  }
}
