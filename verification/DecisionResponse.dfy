/** Answering a decision: insert, complete, resume, reopen and delete, with responders racing (src/decision-response-program.ts). */
module DecisionResponse {
  import opened Wrappers

  datatype RunStatus = Open | Completed | Aborted

  datatype Outcome = Answered | AlreadyAnswered | InsertFailed | CompleteFailed | ResumeFailed | ReopenFailed | DeleteFailed

  /** What a responder does next, or how it ended and whether it left its event behind. */
  datatype Phase =
    | Inserting
    | Completing
    | Resuming
    | Reopening
    | Deleting(cause: Outcome)
    | Ended(outcome: Outcome, left: bool)

  /** The run, the response events (one per responder, named after it), and where every responder is. */
  datatype Decision = Decision(run: RunStatus, events: set<nat>, phases: seq<Phase>)

  /** One call by one responder that takes effect or fails without one; or a newer question aborts the run. */
  datatype Step = Call(i: nat, ok: bool) | Supersede

  predicate Enabled(d: Decision, s: Step) { s.Call? ==> s.i < |d.phases| && !d.phases[s.i].Ended? }

  /** A failed cleanup after a failed completion is swallowed; any other failed cleanup is reported. */
  function AfterDelete(cause: Outcome, ok: bool): Phase {
    Ended(if ok || cause.CompleteFailed? then cause else DeleteFailed, !ok)
  }

  function Next(d: Decision, s: Step): Decision
    requires Enabled(d, s)
  {
    if s.Supersede? then d.(run := if d.run.Open? then Aborted else d.run)
    else
      var Call(i, ok) := s;
      match d.phases[i]
      case Inserting =>
        if ok then d.(events := d.events + {i}, phases := d.phases[i := Completing])
        else d.(phases := d.phases[i := Ended(InsertFailed, false)])
      case Completing =>
        if !ok then d.(phases := d.phases[i := Deleting(CompleteFailed)])
        else if d.run.Open? then d.(run := Completed, phases := d.phases[i := Resuming])
        else d.(phases := d.phases[i := Deleting(AlreadyAnswered)])
      case Resuming => d.(phases := d.phases[i := if ok then Ended(Answered, true) else Reopening])
      case Reopening =>
        if ok && d.run.Completed? then d.(run := Open, phases := d.phases[i := Deleting(ResumeFailed)])
        else d.(phases := d.phases[i := Ended(ReopenFailed, true)])
      case Deleting(cause) =>
        d.(events := if ok then d.events - {i} else d.events, phases := d.phases[i := AfterDelete(cause, ok)])
      case Ended(_, _) => d
  }

  function Start(n: nat): Decision { Decision(Open, {}, seq(n, i => Inserting)) }

  // ---------------------------------------------------------------- invariant

  predicate HasEvent(p: Phase) { !p.Inserting? && (p.Ended? ==> p.left) }

  /** A responder that has completed the run and not given it back. */
  predicate Holder(p: Phase) { p.Resuming? || p.Reopening? || (p.Ended? && (p.outcome.Answered? || p.outcome.ReopenFailed?)) }

  predicate Sensible(p: Phase) {
    && (p.Deleting? ==> p.cause.CompleteFailed? || p.cause.AlreadyAnswered? || p.cause.ResumeFailed?)
    && (p.Ended? && Holder(p) ==> p.left)
    && (p.Ended? && p.left ==> Holder(p) || p.outcome.DeleteFailed? || p.outcome.CompleteFailed?)
  }

  ghost predicate Inv(d: Decision) {
    && (forall i: nat :: i in d.events <==> i < |d.phases| && HasEvent(d.phases[i]))
    && (forall i, j :: 0 <= i < j < |d.phases| ==> !(Holder(d.phases[i]) && Holder(d.phases[j])))
    && (d.run.Completed? <==> exists i :: 0 <= i < |d.phases| && Holder(d.phases[i]))
    && (forall i :: 0 <= i < |d.phases| ==> Sensible(d.phases[i]))
  }

  lemma StartInv(n: nat)
    ensures Inv(Start(n))
  {
  }

  /** One responder's phase changes: its event and its hold change along. */
  lemma PhaseKeepsInv(d: Decision, t: Decision, i: nat, p: Phase)
    requires Inv(d) && i < |d.phases| && t.phases == d.phases[i := p] && Sensible(p)
    requires t.events == if HasEvent(p) then d.events + {i} else d.events - {i}
    requires Holder(p) ==> Holder(d.phases[i]) || !d.run.Completed?
    requires t.run.Completed? <==> if Holder(p) == Holder(d.phases[i]) then d.run.Completed? else Holder(p)
    ensures Inv(t)
  {
    if t.run.Completed? {
      if Holder(p) {
        assert Holder(t.phases[i]);
      } else {
        var h :| 0 <= h < |d.phases| && Holder(d.phases[h]);
        assert Holder(t.phases[h]);
      }
    }
    forall h | 0 <= h < |t.phases| && Holder(t.phases[h]) ensures t.run.Completed? {
      if h != i { assert Holder(d.phases[h]); }
    }
  }

  lemma StepKeepsInv(d: Decision, s: Step)
    requires Inv(d) && Enabled(d, s)
    ensures Inv(Next(d, s))
  {
    if s.Call? {
      assert Sensible(d.phases[s.i]);
      if Holder(d.phases[s.i]) { assert d.run.Completed?; }
      PhaseKeepsInv(d, Next(d, s), s.i, Next(d, s).phases[s.i]);
    }
  }

  // ---------------------------------------------------------------- whole runs

  ghost predicate Runs(d: Decision, steps: seq<Step>, last: Decision)
    decreases |steps|
  {
    if steps == [] then d == last else Enabled(d, steps[0]) && Runs(Next(d, steps[0]), steps[1..], last)
  }

  /** The calls of `resume` that succeed along a run. */
  function Resumes(d: Decision, steps: seq<Step>): nat
    decreases |steps|
  {
    if steps == [] || !Enabled(d, steps[0]) then 0
    else
      (if steps[0].Call? && steps[0].ok && d.phases[steps[0].i].Resuming? then 1 else 0)
      + Resumes(Next(d, steps[0]), steps[1..])
  }

  lemma {:induction false} RunKeepsInv(d: Decision, steps: seq<Step>, last: Decision)
    requires Inv(d) && Runs(d, steps, last)
    ensures Inv(last) && |last.phases| == |d.phases|
    decreases |steps|
  {
    if steps != [] {
      StepKeepsInv(d, steps[0]);
      RunKeepsInv(Next(d, steps[0]), steps[1..], last);
    }
  }

  /** Once somebody's resume has succeeded, no other resume can. */
  lemma {:induction false} NoneAfter(d: Decision, steps: seq<Step>, winner: nat)
    requires Inv(d) && winner < |d.phases| && d.phases[winner] == Ended(Answered, true)
    ensures Resumes(d, steps) == 0
    decreases |steps|
  {
    if steps != [] && Enabled(d, steps[0]) {
      StepKeepsInv(d, steps[0]);
      NoneAfter(Next(d, steps[0]), steps[1..], winner);
      assert Holder(d.phases[winner]);
    }
  }

  lemma {:induction false} AtMostOnce(d: Decision, steps: seq<Step>)
    requires Inv(d)
    ensures Resumes(d, steps) <= 1
    decreases |steps|
  {
    if steps != [] && Enabled(d, steps[0]) {
      var t := Next(d, steps[0]);
      StepKeepsInv(d, steps[0]);
      if steps[0].Call? && steps[0].ok && d.phases[steps[0].i].Resuming? {
        NoneAfter(t, steps[1..], steps[0].i);
      } else {
        AtMostOnce(t, steps[1..]);
      }
    }
  }

  /** However the responders interleave and whatever fails, at most one resume succeeds. */
  lemma AtMostOneResume(n: nat, steps: seq<Step>)
    ensures Resumes(Start(n), steps) <= 1
  {
    StartInv(n);
    AtMostOnce(Start(n), steps);
  }

  predicate AllEnded(d: Decision) { forall i :: 0 <= i < |d.phases| ==> d.phases[i].Ended? }

  /** A responder whose cleanup failed, so that its event stayed. */
  predicate Littered(p: Phase) { p.Ended? && p.left && !Holder(p) }

  /**
   When everybody has finished, the events left are that of the responder that completed the run, if one
   did, and those whose deletion failed; and the run is completed exactly if there is such a responder.
   */
  lemma WhatRemains(n: nat, steps: seq<Step>, last: Decision)
    requires Runs(Start(n), steps, last) && AllEnded(last)
    ensures |last.phases| == n
    ensures forall i: nat :: i in last.events <==> i < n && (Holder(last.phases[i]) || Littered(last.phases[i]))
    ensures forall i, j :: 0 <= i < j < n ==> !(Holder(last.phases[i]) && Holder(last.phases[j]))
    ensures last.run.Completed? <==> exists i :: 0 <= i < n && Holder(last.phases[i])
  {
    StartInv(n);
    RunKeepsInv(Start(n), steps, last);
    forall i | 0 <= i < n ensures HasEvent(last.phases[i]) <==> Holder(last.phases[i]) || Littered(last.phases[i]) {
      assert Sensible(last.phases[i]);
    }
  }

  /** A run that nobody superseded is never aborted. */
  lemma {:induction false} OpenUnlessSuperseded(d: Decision, steps: seq<Step>, last: Decision)
    requires Runs(d, steps, last) && !d.run.Aborted?
    requires forall k :: 0 <= k < |steps| ==> steps[k].Call?
    ensures !last.run.Aborted?
    decreases |steps|
  {
    if steps != [] {
      forall k | 0 <= k < |steps[1..]| ensures steps[1..][k].Call? { assert steps[1..][k] == steps[k + 1]; }
      OpenUnlessSuperseded(Next(d, steps[0]), steps[1..], last);
    }
  }

  /** Every deletion of an event that a run attempts takes effect. */
  predicate DeletionsSucceed(d: Decision, steps: seq<Step>)
    decreases |steps|
  {
    steps != [] && Enabled(d, steps[0]) ==>
      && (steps[0].Call? && d.phases[steps[0].i].Deleting? ==> steps[0].ok)
      && DeletionsSucceed(Next(d, steps[0]), steps[1..])
  }

  ghost predicate NoLitter(d: Decision) { forall i :: 0 <= i < |d.phases| ==> !Littered(d.phases[i]) }

  /** A step leaves a stray event behind exactly if it is a deletion that fails. */
  lemma StepLitters(d: Decision, s: Step)
    requires Inv(d) && Enabled(d, s)
    ensures NoLitter(Next(d, s)) <==> NoLitter(d) && (s.Call? && d.phases[s.i].Deleting? ==> s.ok)
  {
    var t := Next(d, s);
    if s.Call? {
      assert Sensible(d.phases[s.i]);
      forall j | 0 <= j < |d.phases| && j != s.i ensures t.phases[j] == d.phases[j] {}
      assert Littered(t.phases[s.i]) <==> d.phases[s.i].Deleting? && !s.ok;
      forall j | 0 <= j < |d.phases| && Littered(d.phases[j]) ensures Littered(t.phases[j]) {}
      forall j | 0 <= j < |d.phases| && Littered(t.phases[j]) ensures j == s.i || Littered(d.phases[j]) {}
    }
  }

  /** Over a whole run nothing stray is left exactly if every deletion succeeded. */
  lemma {:induction false} RunLitters(d: Decision, steps: seq<Step>, last: Decision)
    requires Inv(d) && NoLitter(d) && Runs(d, steps, last)
    ensures NoLitter(last) <==> DeletionsSucceed(d, steps)
    decreases |steps|
  {
    if steps != [] {
      var t := Next(d, steps[0]);
      StepKeepsInv(d, steps[0]);
      StepLitters(d, steps[0]);
      if NoLitter(t) { RunLitters(t, steps[1..], last); } else { LitterStays(t, steps[1..], last); }
    }
  }

  lemma {:induction false} LitterStays(d: Decision, steps: seq<Step>, last: Decision)
    requires Inv(d) && !NoLitter(d) && Runs(d, steps, last)
    ensures !NoLitter(last)
    decreases |steps|
  {
    if steps != [] {
      StepKeepsInv(d, steps[0]);
      StepLitters(d, steps[0]);
      LitterStays(Next(d, steps[0]), steps[1..], last);
    }
  }

  /** A completed run with exactly one event left, or a run not completed with none. */
  predicate Tidy(d: Decision) { if d.run.Completed? then |d.events| == 1 else d.events == {} }

  lemma TidyExactly(n: nat, steps: seq<Step>, last: Decision)
    requires Runs(Start(n), steps, last) && AllEnded(last)
    ensures Tidy(last) <==> NoLitter(last)
  {
    WhatRemains(n, steps, last);
    if last.run.Completed? {
      var h: nat :| h < n && Holder(last.phases[h]);
      if NoLitter(last) {
        assert last.events == {h};
      } else {
        var k: nat :| k < n && Littered(last.phases[k]);
        assert {h, k} <= last.events && h != k;
        assert |last.events - {h, k}| == |last.events| - 2;
      }
    } else if NoLitter(last) {
      assert last.events == {};
    } else {
      var k: nat :| k < n && Littered(last.phases[k]);
      assert k in last.events;
    }
  }

  /**
   When everybody has finished, the run is completed with exactly one event left, or not completed
   with none, if and only if every deletion the responders attempted took effect.
   */
  lemma CompletedIffOneEvent(n: nat, steps: seq<Step>, last: Decision)
    requires Runs(Start(n), steps, last) && AllEnded(last)
    ensures (if last.run.Completed? then |last.events| == 1 else last.events == {}) <==> DeletionsSucceed(Start(n), steps)
    ensures (forall k :: 0 <= k < |steps| ==> steps[k].Call?) ==> last.run.Completed? || last.run.Open?
  {
    StartInv(n);
    RunLitters(Start(n), steps, last);
    TidyExactly(n, steps, last);
    if forall k :: 0 <= k < |steps| ==> steps[k].Call? { OpenUnlessSuperseded(Start(n), steps, last); }
  }

  /** A swallowed or failed deletion leaves a stray event on a run that is open: three calls are enough. */
  lemma FailedDeletionLeavesEvent()
    ensures var steps := [Call(0, true), Call(0, false), Call(0, false)];
            exists last :: Runs(Start(1), steps, last) && AllEnded(last) && last.run.Open? && last.events == {0}
  {
    var a := Next(Start(1), Call(0, true));
    var b := Next(a, Call(0, false));
    var c := Next(b, Call(0, false));
    var steps := [Call(0, true), Call(0, false), Call(0, false)];
    assert steps[1..] == [Call(0, false), Call(0, false)] && steps[1..][1..] == [Call(0, false)] && steps[1..][1..][1..] == [];
    assert Runs(c, [], c) && Runs(b, [Call(0, false)], c) && Runs(a, steps[1..], c);
    assert Runs(Start(1), steps, c);
  }

  // ---------------------------------------------------------------- what does get answered

  /** What one call does to the store: only its own event, and the run only by completing an open one or reopening a completed one. */
  lemma CallExactly(d: Decision, i: nat, ok: bool)
    requires i < |d.phases| && !d.phases[i].Ended?
    ensures var p, t := d.phases[i], Next(d, Call(i, ok));
            && t.events == (if ok && p == Inserting then d.events + {i} else if ok && p.Deleting? then d.events - {i} else d.events)
            && t.run == (if ok && p == Completing && d.run == Open then Completed
                         else if ok && p == Reopening && d.run == Completed then Open else d.run)
            && t.phases == d.phases[i := t.phases[i]]
            && (p == Inserting ==> t.phases[i] == if ok then Completing else Ended(InsertFailed, false))
            && (p == Completing ==> t.phases[i] == if !ok then Deleting(CompleteFailed)
                                                   else if d.run == Open then Resuming else Deleting(AlreadyAnswered))
            && (p == Resuming ==> t.phases[i] == if ok then Ended(Answered, true) else Reopening)
            && (p == Reopening ==> t.phases[i] == if ok && d.run == Completed then Deleting(ResumeFailed) else Ended(ReopenFailed, true))
            && (p.Deleting? ==> t.phases[i] == if ok then Ended(p.cause, false)
                                               else if p.cause == CompleteFailed then Ended(CompleteFailed, true)
                                               else Ended(DeleteFailed, true))
  {
  }

  /** A newer question aborts the run if it is still open, and touches nothing else. */
  lemma SupersedeExactly(d: Decision)
    ensures Next(d, Supersede).run == if d.run == Open then Aborted else d.run
    ensures Next(d, Supersede).events == d.events && Next(d, Supersede).phases == d.phases
  {
  }

  predicate AllOk(steps: seq<Step>) { forall k :: 0 <= k < |steps| ==> steps[k].Call? && steps[k].ok }

  predicate OnCourse(p: Phase) {
    p in {Inserting, Completing, Resuming, Deleting(AlreadyAnswered), Ended(Answered, true), Ended(AlreadyAnswered, false)}
  }

  /** With every call succeeding, nobody gets past its completion while the run is open. */
  ghost predicate Smooth(d: Decision) {
    && !d.run.Aborted?
    && (forall i :: 0 <= i < |d.phases| ==> OnCourse(d.phases[i]))
    && (d.run.Open? ==> forall i :: 0 <= i < |d.phases| ==> d.phases[i].Inserting? || d.phases[i].Completing?)
  }

  lemma SmoothStep(d: Decision, s: Step)
    requires Smooth(d) && Enabled(d, s) && s.Call? && s.ok
    ensures Smooth(Next(d, s))
  {
    CallExactly(d, s.i, s.ok);
    assert OnCourse(d.phases[s.i]);
  }

  lemma {:induction false} SmoothRun(d: Decision, steps: seq<Step>, last: Decision)
    requires Smooth(d) && Runs(d, steps, last) && AllOk(steps)
    ensures Smooth(last)
    decreases |steps|
  {
    if steps != [] {
      SmoothStep(d, steps[0]);
      forall k | 0 <= k < |steps[1..]| ensures steps[1..][k].Call? && steps[1..][k].ok { assert steps[1..][k] == steps[k + 1]; }
      SmoothRun(Next(d, steps[0]), steps[1..], last);
    }
  }

  /** This responder answered, and every other one that it had been answered. */
  ghost predicate AnsweredBy(d: Decision, w: nat) {
    forall i: nat :: i < |d.phases| ==> d.phases[i] == if i == w then Ended(Answered, true) else Ended(AlreadyAnswered, false)
  }

  /** If every call succeeds, the decision is answered: the run is completed, by exactly one responder, whose event is the one that is left. */
  lemma AnsweredWhenAllSucceed(n: nat, steps: seq<Step>, last: Decision)
    requires n > 0 && Runs(Start(n), steps, last) && AllEnded(last) && AllOk(steps)
    ensures last.run == Completed
    ensures exists w: nat :: w < n && last.events == {w} && AnsweredBy(last, w)
  {
    StartInv(n);
    SmoothRun(Start(n), steps, last);
    WhatRemains(n, steps, last);
    assert last.phases[0].Ended?;
    var w: nat :| w < n && Holder(last.phases[w]);
    forall i | 0 <= i < n ensures last.phases[i] == if i == w then Ended(Answered, true) else Ended(AlreadyAnswered, false) {
      assert OnCourse(last.phases[i]);
    }
    assert last.events == {w};
  }

  /** Along the run, this responder's completion call took effect and found the run no longer open. */
  ghost predicate FoundClosed(d: Decision, steps: seq<Step>, i: nat)
    decreases |steps|
  {
    && steps != [] && Enabled(d, steps[0])
    && (|| (steps[0] == Call(i, true) && i < |d.phases| && d.phases[i] == Completing && d.run != Open)
        || FoundClosed(Next(d, steps[0]), steps[1..], i))
  }

  predicate Late(p: Phase) { p == Deleting(AlreadyAnswered) || p == Ended(AlreadyAnswered, false) || p == Ended(DeleteFailed, true) }

  lemma {:induction false} LateStaysLate(d: Decision, steps: seq<Step>, last: Decision, i: nat)
    requires Runs(d, steps, last) && i < |d.phases| && Late(d.phases[i])
    ensures i < |last.phases| && Late(last.phases[i])
    decreases |steps|
  {
    if steps != [] { LateStaysLate(Next(d, steps[0]), steps[1..], last, i); }
  }

  lemma {:induction false} LateFromHere(d: Decision, steps: seq<Step>, last: Decision, i: nat)
    requires Runs(d, steps, last) && i < |d.phases| && d.phases[i] != Deleting(AlreadyAnswered)
    requires d.phases[i].Ended? ==> d.phases[i].outcome != AlreadyAnswered
    ensures i < |last.phases| && (last.phases[i].Ended? && last.phases[i].outcome == AlreadyAnswered ==> FoundClosed(d, steps, i))
    ensures FoundClosed(d, steps, i) ==> Late(last.phases[i])
    decreases |steps|
  {
    if steps != [] {
      var t := Next(d, steps[0]);
      if steps[0] == Call(i, true) && d.phases[i] == Completing && d.run != Open {
        LateStaysLate(t, steps[1..], last, i);
      } else {
        LateFromHere(t, steps[1..], last, i);
      }
    }
  }

  /**
   A responder answers that the decision had been answered only if its completion call found the run not open;
   and one whose call found it so answers just that, unless its event could not be deleted.
   */
  lemma LateExactly(n: nat, steps: seq<Step>, last: Decision, i: nat)
    requires Runs(Start(n), steps, last) && i < n && AllEnded(last)
    ensures i < |last.phases| && (last.phases[i].outcome == AlreadyAnswered ==> FoundClosed(Start(n), steps, i))
    ensures FoundClosed(Start(n), steps, i) ==> last.phases[i] == Ended(AlreadyAnswered, false) || last.phases[i] == Ended(DeleteFailed, true)
  {
    StartInv(n);
    RunKeepsInv(Start(n), steps, last);
    LateFromHere(Start(n), steps, last, i);
  }

  /** Along the run, this responder's call failed in that phase. */
  ghost predicate FailedIn(d: Decision, steps: seq<Step>, i: nat, p: Phase)
    decreases |steps|
  {
    && steps != [] && Enabled(d, steps[0])
    && (|| (steps[0] == Call(i, false) && i < |d.phases| && d.phases[i] == p)
        || FailedIn(Next(d, steps[0]), steps[1..], i, p))
  }

  /** Why a responder ends with an error: the call named by it fails later on in the run, or it has failed already. */
  ghost predicate HasCause(d: Decision, steps: seq<Step>, i: nat, outcome: Outcome)
    requires i < |d.phases|
  {
    var p := d.phases[i];
    || (p.Ended? && p.outcome == outcome)
    || match outcome
       case InsertFailed => FailedIn(d, steps, i, Inserting)
       case CompleteFailed => FailedIn(d, steps, i, Completing) || p == Deleting(CompleteFailed)
       case ResumeFailed => FailedIn(d, steps, i, Resuming) || p == Reopening || p == Deleting(ResumeFailed)
       case ReopenFailed => FailedIn(d, steps, i, Reopening)
       case DeleteFailed => FailedIn(d, steps, i, Deleting(AlreadyAnswered)) || FailedIn(d, steps, i, Deleting(ResumeFailed))
       case _ => true
  }

  lemma CauseStep(d: Decision, steps: seq<Step>, i: nat, outcome: Outcome)
    requires Inv(d) && i < |d.phases| && steps != [] && Enabled(d, steps[0]) && HasCause(Next(d, steps[0]), steps[1..], i, outcome)
    ensures HasCause(d, steps, i, outcome)
  {
    assert Sensible(d.phases[i]);
    if d.phases[i] == Reopening { assert Holder(d.phases[i]) && d.run.Completed?; }
    if steps[0].Call? { CallExactly(d, steps[0].i, steps[0].ok); }
  }

  lemma {:induction false} CauseAlong(d: Decision, steps: seq<Step>, last: Decision, i: nat)
    requires Inv(d) && Runs(d, steps, last) && i < |d.phases|
    ensures i < |last.phases| && (last.phases[i].Ended? ==> HasCause(d, steps, i, last.phases[i].outcome))
    decreases |steps|
  {
    if steps == [] {
      assert Sensible(d.phases[i]);
    } else {
      StepKeepsInv(d, steps[0]);
      CauseAlong(Next(d, steps[0]), steps[1..], last, i);
      if last.phases[i].Ended? { CauseStep(d, steps, i, last.phases[i].outcome); }
    }
  }

  /**
   A responder reports a failure only of a call of its own that failed: the insertion, the completion, the
   resumption, the reopening, or the deletion of its event after it came late or could not resume.
   */
  lemma ErrorsHaveCauses(n: nat, steps: seq<Step>, last: Decision, i: nat)
    requires Runs(Start(n), steps, last) && i < n && AllEnded(last)
    ensures i < |last.phases|
    ensures last.phases[i].outcome == InsertFailed ==> FailedIn(Start(n), steps, i, Inserting)
    ensures last.phases[i].outcome == CompleteFailed ==> FailedIn(Start(n), steps, i, Completing)
    ensures last.phases[i].outcome == ResumeFailed ==> FailedIn(Start(n), steps, i, Resuming)
    ensures last.phases[i].outcome == ReopenFailed ==> FailedIn(Start(n), steps, i, Reopening)
    ensures last.phases[i].outcome == DeleteFailed ==>
              FailedIn(Start(n), steps, i, Deleting(AlreadyAnswered)) || FailedIn(Start(n), steps, i, Deleting(ResumeFailed))
  {
    StartInv(n);
    RunKeepsInv(Start(n), steps, last);
    CauseAlong(Start(n), steps, last, i);
  }

  // ---------------------------------------------------------------- the program of one responder

  class Store {
    var d: Decision

    constructor (n: nat)
      ensures d == Start(n)
    {
      d := Start(n);
    }

    /** Between two calls of a responder, any number of calls by others. */
    method Others(i: nat)
      requires Inv(d) && i < |d.phases|
      modifies this
      ensures Inv(d) && |d.phases| == |old(d).phases| && d.phases[i] == old(d).phases[i]
    {
      var n, k := *, 0;
      while k < n
        invariant Inv(d) && |d.phases| == |old(d).phases| && d.phases[i] == old(d).phases[i]
      {
        var j: int, ok: bool := *, *;
        var s := if 0 <= j < |d.phases| then Call(j, ok) else Supersede;
        if Enabled(d, s) && j != i {
          StepKeepsInv(d, s);
          d := Next(d, s);
        }
        k := k + 1;
      }
    }

    /** One store or resume call of this responder, after which the others may act. */
    method Attempt(i: nat) returns (ok: bool)
      requires Inv(d) && i < |d.phases| && !d.phases[i].Ended?
      modifies this
      ensures Inv(d) && |d.phases| == |old(d).phases|
      ensures exists mid :: Between(mid, |old(d).phases|, old(d).phases[i], i) && d.phases[i] == Next(mid, Call(i, ok)).phases[i]
    {
      Others(i);
      ok := *;
      StepKeepsInv(d, Call(i, ok));
      ghost var mid := d;
      d := Next(d, Call(i, ok));
      Others(i);
      assert Between(mid, |old(d).phases|, old(d).phases[i], i);
    }

    /** The saga: what it answers is how the responder ended, whatever the others did in between. */
    method RecordDecisionResponse(i: nat) returns (r: Result<bool, Outcome>)
      requires Inv(d) && i < |d.phases| && d.phases[i].Inserting?
      modifies this
      ensures Inv(d) && |d.phases| == |old(d).phases| && d.phases[i].Ended?
      ensures match r
              case Ok(true) => d.phases[i] == Ended(Answered, true) && d.run.Completed? && i in d.events
              case Ok(false) => d.phases[i] == Ended(AlreadyAnswered, false) && i !in d.events
              case Err(e) => d.phases[i].outcome == e && !e.Answered? && !e.AlreadyAnswered?
    {
      var inserted := Attempt(i);
      if !inserted { return Err(InsertFailed); }
      var completed := Attempt(i);
      if !completed {
        var deleted := Attempt(i);
        return Err(CompleteFailed);
      }
      if d.phases[i].Deleting? {
        var deleted := Attempt(i);
        if !deleted { return Err(DeleteFailed); }
        return Ok(false);
      }
      var resumed := Attempt(i);
      if resumed {
        assert Holder(d.phases[i]);
        return Ok(true);
      }
      var reopened := Attempt(i);
      if !reopened || !d.phases[i].Deleting? { return Err(ReopenFailed); }
      var deleted := Attempt(i);
      if !deleted { return Err(DeleteFailed); }
      return Err(ResumeFailed);
    }
  }

  ghost predicate Between(mid: Decision, n: nat, p: Phase, i: nat) {
    |mid.phases| == n && i < n && mid.phases[i] == p && !p.Ended?
  }
}
