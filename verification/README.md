# My AX: verified model of the protocols and algorithms

My AX is a Worker application around agent sessions.  This project models the parts of it that carry
hard promises and proves them with Dafny 4.11, for all inputs, all interleavings and all faults the
model allows.

| module | models |
|---|---|
| `DelegateScheduler`, `DelegateSafety`, `DelegateRuns`, `DelegateRetries` | the adaptive parallel delegate scheduler: up to a thousand tasks behind a window that halves on a rate limit and grows on success |
| `FractionalIndex`, `SessionPinning`, `SessionPinningProgram` | ranks over base 62, moves that rewrite one row, the pinned list |
| `FileTree`, `ComputerPath`, `ComputerUsage`, `ComputerWrite`, `ComputerWorkspace`, `ComputerGrep` | the quota-keeping workspace: counting, writing with rollback, bounded search |
| `Jobs`, `JobLedger`, `JobService` | recurring jobs in two stores, rows and alarms, with every call free to fail |
| `DeskBoard`, `DeskStore`, `DeskWriters` | the desk board and its compare-and-set, with many interleaved writers |
| `DecisionResponse` | answering a decision, with racing responders and failing steps |
| `MachineRelay`, `MachineAnswers` | the laptop relay: generations, pending calls, timers, and which event answers which call |
| `RegexScan`, `JsonTree`, `SchemaSanitizer`, `StoredItemRefs` | taking lookaround out of tool schemas and stored-item references out of histories |
| `Utf8`, `ToolOutputLimit` | cutting output between characters |
| `Base64Url`, `GrantCrypto` | base64url and the encrypted token blob |
| `ToolIdSanitize` | tool-call ids every provider accepts |
| `Wrappers`, `Collections`, `Strings`, `Utf16` | results, facts about lists and sets, splitting and joining, JavaScript text |

How the form was chosen.  Objects whose methods update fields are classes (`AdmissionState`, `PinStore`,
`Workspace`, `Service`, `DeskRow`, `Store`, `MachineHost`), loops over local variables are methods with
loop invariants, and everything that only computes is a function.  Protocols are state machines whose
steps are the stretches of code between two `await`s; a run is any sequence of enabled steps.  The
methods of a class are proved against functions or relations on values, and the lemmas about those
carry the whole-run theorems.

Where the code does less than its comments or tests suggest, the code is modelled and the exact
condition is proved:

- Trim-then-slice fields (`DeskBoard.CardSettledAtOnce`, `Jobs.RevalidateKeeps`) settle only on the
  second pass, exactly when the cut falls just after a space.
- A desk row holding the empty string can never be written (`DeskStore.CompareAndSetExactly`,
  `DeskWriters.BlankStaysForever`).
- A last run whose alarm cannot be cancelled leaves that alarm orphaned, and over whole runs of the
  service these are the only orphans as long as no other operation meets two failed calls
  (`JobService.Serve`).
- An interleaved update can show an exhausted job as active, though it gets no run
  (`Jobs.StaleUpdateReactivates`); a job stays exhausted exactly if no statement that meets its row
  writes another status (`Jobs.ExhaustedStaysExactly`).
- A failed clean-up leaves a stray response event (`DecisionResponse.FailedDeletionLeavesEvent`); a
  completed run keeps exactly one event and any other none exactly if no deletion failed
  (`DecisionResponse.CompletedIffOneEvent`).
- The close of a laptop socket without generation clears a newer connection (`MachineRelay.UnmarkedSocket`).
- A newly accepted laptop is offered with the tools stored by the one before until its own hello arrives
  (`MachineAnswers.OfferedAfterConnect`).
- A byte order mark at the start is lost from cut output and decrypted tokens
  (`ToolOutputLimit.LimitModelToolOutput`, `GrantCrypto.DecryptUndoesEncrypt`).
- A move whose anchor is not in the list lands on top (`SessionPinning.MoveToUnknownAnchor`), although the
  comment above the function speaks of the end.
- Two moves to the same gap collide (`SessionPinning.SameAnchorCollides`), and so do two new pins computed
  from one snapshot, which can also pass the limit of twenty (`SessionPinningProgram.TwoPinsOneSnapshot`).
- Escaping does not keep tool-call ids apart: an id collides exactly if it has to be rewritten, is the
  fallback token or contains what reads like an escape (`ToolIdSanitize.CollidesExactly`); ids without
  underscores stay distinct (`ToolIdSanitize.DistinctIdsStayDistinct`).

## Model

| member | source | states |
|---|---|---|
| DelegateScheduler.AdmissionState.AdmitTask | src/delegate-serial.ts:121-124 | a task takes a slot at once exactly if the window has room; otherwise it joins the end of the queue and wakes nobody |
| DelegateScheduler.AdmissionState.Release | src/delegate-serial.ts:126-129 | a slot is given back first, then queued tasks are woken in order while there is room, and the log of resolved promises shows exactly those |
| DelegateScheduler.AdmissionState.NarrowWindow | src/delegate-serial.ts:131-133 | the limit halves, never below one; nobody is woken |
| DelegateScheduler.AdmissionState.Widen | src/delegate-serial.ts:135-138 | the limit grows by one up to the ceiling, then queued tasks are woken in order while there is room |
| DelegateSafety.InitInv | src/delegate-serial.ts:162-166 | a fresh batch satisfies the invariant |
| DelegateSafety.InvStep | src/delegate-serial.ts:157-203 | every atomic step keeps the invariant: window bounds, slot count, retry budget, a queue listing the queued tasks once, no lost wake-up, truthful results so far |
| DelegateSafety.StepFrames | src/delegate-serial.ts:168-200 | a step moves its own task and the tasks it wakes, and no other |
| DelegateRuns.WindowSafety | src/delegate-serial.ts:119-138 | in every interleaving, throws included: 1 <= limit <= ceiling, active is the number of tasks holding a slot and at most the ceiling, waiters imply active >= limit, and the queue is the queued tasks without repetition |
| DelegateRuns.StepConservesQueue | src/delegate-serial.ts:121-138 | a step takes tasks off the front of the queue and adds at most its own task at the back; none vanishes |
| DelegateRuns.WokenAreAdmitted | src/delegate-serial.ts:126-138 | the tasks a step wakes are exactly the queued ones that hold a slot afterwards |
| DelegateRuns.QueueIsFifo | src/delegate-serial.ts:121-138 | over a whole run tasks are woken in exactly the order they queued, and the queue holds those not yet woken |
| DelegateRuns.NoOvertaking | src/delegate-serial.ts:121-124 | whoever is admitted without queueing leaves no task waiting behind |
| DelegateRuns.LimitMoves | src/delegate-serial.ts:131-138 | the limit halves on a rate-limited end, grows by one up to the ceiling on a final end, and moves at no other time |
| DelegateRuns.Termination | src/delegate-serial.ts:168-200 | a run has at most n * (5 * (retries + 2) + 3) steps, whatever the tasks answer |
| DelegateRuns.Progress | src/delegate-serial.ts:157-203 | while a task is unfinished some step other than a throw is enabled: no deadlock |
| DelegateRuns.BatchCompletes | src/delegate-serial.ts:157-203 | a throw-free run that cannot go on has one result per task in task order, each with that task's label and fingerprint and at most 2 + retries attempts |
| DelegateRuns.ResultsAreTruthful | src/delegate-serial.ts:176-199 | a returned result reports the task's last outcome, and its attempts are the launches made |
| DelegateRuns.DeferredOnlyForCause | src/delegate-serial.ts:172-188 | a task is deferred only by its own step, after an expired deadline at the head of the loop or when its rate-limit retries are spent |
| DelegateRetries.RetryExactly | src/delegate-serial.ts:78-99 | one more attempt is granted exactly after the first attempt, interrupted and retryable with its child confirmed stopped, unless its text is a rate limit; an unknown child is not enough |
| DelegateRetries.CompleteExactly | src/delegate-serial.ts:176-199 | in any state of a batch an attempt that ends sends its task to back off or defers it on a rate limit, to one more attempt after a confirmed stop of the first, and in every other case settles it with that outcome |
| DelegateRetries.RelaunchHasCause | src/delegate-serial.ts:168-200 | in every run a task that is launched again was rate-limited or confirmed stopped by its last attempt, so never beside a child that may still run |
| DelegateRetries.BatchDefaults | src/delegate-serial.ts:142-166 | without options the window opens at 32 and four rate limits are survived; the window never opens wider than the batch nor below one, and a negative allowance is none |
| StoredItemRefs.CollectOpenAiStoredItemIds | src/delegate-serial.ts:16-28 | the walk adds to its growing set exactly the stored-item ids named anywhere in the value |
| StoredItemRefs.CollectedExactly | src/delegate-serial.ts:10-28 | an id is collected if and only if some record anywhere in the value names it: rs_ and alphanumerics under itemId or previousResponseId, or under id in an item reference |
| StoredItemRefs.StrippedNamesNone | src/delegate-serial.ts:30-41 | after stripping, no stored item is named anywhere |
| StoredItemRefs.StripExactly | src/delegate-serial.ts:16-41 | stripping leaves a value alone if and only if it names no stored item, and stripping twice is stripping once |
| StoredItemRefs.StripsExactly | src/delegate-serial.ts:30-41 | at every depth stripping removes exactly the fields by which a record names an item, and leaves every other field, element and value in its place |
| FractionalIndex.DigitsSpellTheAlphabet | src/fractional-index.ts:14-22 | the closed form of the digits is the alphabet string, position by position |
| FractionalIndex.Walk | src/fractional-index.ts:63-98 | the digit loop terminates and computes the midpoint function |
| FractionalIndex.BetweenRaw | src/fractional-index.ts:63-66 | bounds out of order are refused, all others go to the digit walk |
| FractionalIndex.MidIsBetween | src/fractional-index.ts:67-98 | for digit strings in order the midpoint is strictly between them, over the alphabet, without trailing zero, at most one digit longer |
| FractionalIndex.ComputeBetween | src/fractional-index.ts:41-61 | the exported function with its guards computes the specified midpoint or error |
| FractionalIndex.BetweenIsBetween | src/fractional-index.ts:26-61 | for valid ranks in order, either side open: a valid rank strictly between, at most one character longer than the longer bound, or exhaustion, which needs a bound of full length |
| FractionalIndex.RankBeforeExhausts | src/fractional-index.ts:52-60 | inserting above fails for exactly one key, 63 zeros and a one |
| FractionalIndex.RankAfterExhausts | src/fractional-index.ts:52-60 | appending fails for exactly one key, 64 times the last digit |
| FractionalIndex.Fill | src/fractional-index.ts:122-129 | bisection fills its stretch of the array with increasing valid ranks inside the bounds, none longer than its depth, and touches nothing else |
| FractionalIndex.Spread | src/fractional-index.ts:115-132 | whatever is returned is valid and strictly increasing; below 2^64 rows nothing is exhausted and every rank has at most floor(log2 n) + 1 characters |
| SessionPinning.MoveLands | src/session-pinning.ts:16-43 | a move's rank sorts after exactly the rows before its anchor and before the rest, colliding with none |
| SessionPinning.MoveToUnknownAnchor | src/session-pinning.ts:35-39 | a move to an unknown anchor lands above every other row |
| SessionPinning.MoveSucceeds | src/session-pinning.ts:16-43 | a move fails for no list whose ranks stay below the full length |
| SessionPinning.DisplayIsUnique | src/session-pinning.ts:13-14 | two tables whose ranks compare alike have the same display order |
| SessionPinning.MovedRowsCompare | src/session-pinning.ts:16-43 | how two independently moved rows compare follows from their anchors alone |
| SessionPinning.IndependentMovesCommute | src/session-pinning.ts:16-43 | two moves from one snapshot with distinct anchors, neither anchored on the other's row, get distinct ranks and give the display order of doing one after the other |
| SessionPinning.SameAnchorCollides | src/session-pinning.ts:31-42 | two moves to one gap, between two rows, on top of the first or after the last, pick the very same rank whenever neither moved row is next to it |
| SessionPinningProgram.QueryIsDisplay | src/session-pinning-program.ts:12-20 | while ranks are valid and distinct, the ordered query returns the display order of exactly the owner's pinned rows |
| SessionPinningProgram.QueryExists | src/session-pinning-program.ts:12-20 | for every table, equal and missing ranks included, the ordered query has an answer |
| SessionPinningProgram.PinStore.SetSessionPinned | src/session-pinning-program.ts:22-52 | an owned row gets exactly the asked pin and the answered rank, its other fields and all other rows stay, and an unpinned row is out of the list; a new pin sorts on top of the rows read; a new pin over the limit is refused, and no unpin ever fails; with an unchanged table ranks stay valid and distinct and the limit holds, with a changed one exactly if no other pinned row of the owner holds the new rank |
| SessionPinningProgram.PinStore.ReorderPinnedSession | src/session-pinning-program.ts:54-70 | a reorder gives the moved row the answered rank if it is still pinned and writes nothing else; among the rows read it lands immediately before its anchor, at the end or on top; the set of pinned rows stays; ranks stay valid and distinct exactly if no other pinned row of the owner holds the rank by the time of the write, as when nothing was written since the read |
| SessionPinningProgram.PinRowExactly | src/session-pinning-program.ts:41-49 | pinning or unpinning writes pin and rank of one row of the owner, and puts it in the list or takes it out of it |
| SessionPinningProgram.RankRowExactly | src/session-pinning-program.ts:65-66 | a rank is written only to a row its owner still has pinned, and no row enters or leaves the list |
| SessionPinningProgram.StaleMoveIsSafe | src/session-pinning-program.ts:61-68 | a rank computed from an old snapshot is still unused if every other pinned row holds a rank some other row held in it |
| SessionPinningProgram.TwoPinsOneSnapshot | src/session-pinning-program.ts:34-43 | two new pins computed from one snapshot get the same rank: both written, ranks stay distinct exactly if it is one row, and the limit of twenty is passed exactly if one place was left and both rows were new |
| SessionPinningProgram.MoveIsSound | src/session-pinning-program.ts:61-68 | on a well-ordered table a move either lands as asked with an unused valid rank or reports exhaustion |
| SessionPinningProgram.PinLandsOnTop | src/session-pinning-program.ts:39 | a new pin's rank sorts before every pinned row's |
| ComputerPath.AcceptedExactly | src/computer-filesystem.ts:57-70 | a path from outside is accepted if and only if it is at most 1024 bytes and writes some valid path below the home directory, with or without a slash at the end |
| ComputerPath.RefusedExactly | src/computer-filesystem.ts:57-70 | a path is refused for the first fault that applies: empty, over 1024 bytes or with a NUL, an empty segment, outside /home/user, a traversal segment |
| ComputerPath.WritingsAreAccepted | src/computer-filesystem.ts:57-70 | each writing of a valid path resolves to the path without the slash at the end |
| ComputerPath.ResolveIsIdempotent | src/computer-filesystem.ts:57-70 | resolving a resolved path changes nothing |
| ComputerPath.RenderIsInjective | src/computer-filesystem.ts:65-69 | distinct valid paths are written differently |
| ComputerPath.SlashesAreEmptySegments | src/computer-filesystem.ts:61-65 | two slashes in a row are exactly an empty segment inside |
| ComputerPath.ChildPath | src/computer-filesystem.ts:98-101 | the path of a directory entry is refused exactly when it is too long |
| FileTree.Readdir | src/computer-filesystem.ts:44-44 | a listing holds distinct children, all of them unless the limit cuts it |
| FileTree.WalkIsComplete | src/computer-filesystem.ts:203-231 | a breadth-first walk that missed nothing and has an empty queue has read every directory and found every regular file reachable without symbolic links |
| FileTree.CharBytesAreUtf8 | src/computer-filesystem.ts:55-55 | the byte count of a character is the length of its UTF-8 encoding |
| ComputerUsage.ComputeUsage | src/computer-filesystem.ts:202-233 | an answer is the exact number of directories, files and bytes and within quota; a tree of files and directories is refused if and only if it is over quota or holds a path too long to name |
| ComputerUsage.CountEntry | src/computer-filesystem.ts:215-230 | one entry is counted exactly, or refused only on a tree that cannot be counted |
| ComputerWrite.CheckPath | src/computer-filesystem.ts:107-123 | walking down a path finds the entry at its end exactly if everything above is a directory, and refuses symbolic links, non-directories and, unless allowed, a missing leaf |
| ComputerWrite.CollectMissing | src/computer-filesystem.ts:141-153 | the missing parents are collected outermost first, if and only if the existing ones are directories |
| ComputerWrite.PrepareWrite | src/computer-filesystem.ts:139-163 | what is let through keeps all three quotas after the write; on a countable tree it is let through if and only if it is writable and would |
| ComputerWrite.WrittenUsage | src/computer-filesystem.ts:157-161 | the usage after a write is the usage before plus its missing parents, plus one file unless it replaces one, and the difference in bytes |
| ComputerWrite.WrittenWellFormed | src/computer-filesystem.ts:269-284 | the tree after a write is a tree again: every entry sits in a directory |
| ComputerWrite.WrittenExactly | src/computer-filesystem.ts:269-284 | the path holds the text, every missing directory between home and the path is there, and every other path is as it was |
| ComputerWorkspace.Workspace.EnsureHome | src/computer-filesystem.ts:125-133 | the home directory exists afterwards, created only if it was missing; the call fails only if something else stands there or above it, or making it failed |
| ComputerWorkspace.Workspace.MakeParents | src/computer-filesystem.ts:274-277 | parents are created one by one, each inside one that exists, up to the first failure |
| ComputerWorkspace.PruneUndoes | src/computer-filesystem.ts:280-280 | removing the first directory created undoes all creations and nothing else |
| ComputerWorkspace.Workspace.Rollback | src/computer-filesystem.ts:279-282 | unless the removal itself fails, the tree is the one before the write |
| ComputerWorkspace.Workspace.WriteComputerFile | src/computer-filesystem.ts:263-284 | a text over 32 KiB is refused before anything is touched; success leaves exactly the file and its missing parents added to the tree with its home directory, within 512 files, 256 directories and 4 MiB; a failure restores the tree; whether the home directory was there or had to be made, within the quotas only a failing file-system call makes it fail |
| ComputerGrep.TruncateUtf8 | src/computer-filesystem.ts:171-181 | a line is quoted whole or cut to the longest prefix of whole characters that leaves room for the ellipsis |
| ComputerGrep.MatchingLines | src/computer-filesystem.ts:299-307 | the matches of one file are appended in order, stopping at a hundred |
| ComputerGrep.BoundedItems | src/computer-filesystem.ts:183-194 | the answer is the longest prefix within a hundred items and 32 KiB, and says truncated exactly if something was left out |
| ComputerGrep.AllMatchesAre | src/computer-filesystem.ts:299-307 | the naive search over a list of files has exactly the matching lines of those files, each once |
| ComputerGrep.HitsExactly | src/computer-filesystem.ts:299-307 | a line is a hit if and only if the text occurs in it, in the upper-case forms of both exactly when case is to be ignored |
| ComputerGrep.ScanFile | src/computer-filesystem.ts:331-361 | a file is skipped only if too big, read only within the total, and its matches added |
| ComputerGrep.TakeFile | src/computer-filesystem.ts:331-361 | the next file leaves the queue and is counted; only a limit stops the search there, and never on a tree within the limits |
| ComputerGrep.TakeDirectory | src/computer-filesystem.ts:363-383 | one directory is listed and its files and directories queued; what the entry limit cuts is remembered as truncation |
| ComputerGrep.Search | src/computer-filesystem.ts:317-384 | the bounded loop finds the matches of the files it read, of every file below the root unless truncated, and is never truncated on a tree within its limits and in time |
| ComputerGrep.Grep | src/computer-filesystem.ts:309-388 | only true matching lines, each once, at most 128 files read, each of at most 32 KiB and 256 KiB in all; unless truncated, every matching line of every regular file below the root; on a tree within the limits and in time, truncated only if some true matching line is left out that would take the answer over 32 KiB |
| Jobs.ValidatedIsValid | src/jobs.ts:105-132 | whatever validation accepts has a trimmed session, a name of at most 200 and a prompt of at most 4000 units, a cadence in range and a positive limit |
| Jobs.RevalidateKeeps | src/jobs.ts:105-132 | validating a valid job again changes nothing but a name cut just after a space, and nothing at all exactly if the name is trimmed |
| Jobs.RefusedExactly | src/jobs.ts:105-132 | an input is refused for the first field that is not in order: session, name, prompt of at most 4000, cadence of 60 seconds to 30 days, positive limit, known thread mode; and accepted exactly if all are |
| Jobs.StoredExactly | src/jobs.ts:105-132 | what is accepted is stored as sent, texts trimmed and the name cut at 200; without a limit or a thread mode it runs without limit, in the session it was made in |
| Jobs.ApplyExactly | src/jobs.ts:89-102 | each statement changes the row of its id as it says, count and key kept, and touches no other row |
| Jobs.ClaimExactly | src/jobs.ts:89-102 | a claim takes effect exactly on an active row with runs left; it adds one to the count of that row alone, and exactly the last one exhausts it and clears its schedule |
| Jobs.ClaimsReachLimit | src/jobs.ts:85-102 | claims of an active job one after another all succeed up to the runs it has remaining, and none after |
| Jobs.ClaimsWithinLimit | src/jobs.ts:89-102 | however claims, updates, pauses, resumes and deletions interleave and whatever stale values they write, a job's claims never pass its limit |
| Jobs.ClaimsWithinRemaining | src/jobs.ts:85-102 | a job is never claimed more often than it said it had runs remaining |
| Jobs.ExhaustedStaysExactly | src/jobs.ts:89-102 | along any interleaving of job statements an exhausted job is exhausted at every point if and only if, while its row is there, no update writes it another status and no resume or pause reaches it |
| Jobs.StaleUpdateReactivates | src/job-service.ts:85-90 | an interleaved update that read the job before its last run brings it back as active, yet no claim can succeed any more |
| JobLedger.AlignedExactly | src/job-service.ts:44-189 | with no orphan, the live alarms are exactly the schedule ids of the active rows, and other rows hold none |
| JobLedger.MovedSurvives | src/job-service.ts:44-189 | if a row and its alarm move together up to one fault, rows stay in order, alignment is kept and no alarm is orphaned |
| JobService.SwitchNeedsSession | src/job-service.ts:73-80 | switching to a specific thread without naming one is refused |
| JobService.UpdateAcceptedExactly | src/job-service.ts:71-81 | an update of a stored job is accepted if and only if every field it sends is acceptable on its own and a switch to a specific thread names one; each sent field is then stored cleaned, every other one kept |
| JobService.RepeatedUpdate | src/job-service.ts:77-81 | sending the same update again to the job it made changes nothing more |
| JobService.EmptyPatch | src/job-service.ts:77-79 | an empty update leaves the job as it is, exactly if its stored name is trimmed |
| JobService.Service.Launch | src/job-service.ts:55-69 | insert, schedule and record, undone step by step: after one fault no row and no alarm is left |
| JobService.Service.Retarget | src/job-service.ts:83-108 | replacement alarm first, then the row, then the old alarm cancelled twice if need be: after one fault row and alarm still agree |
| JobService.Service.Resume | src/job-service.ts:117-122 | an alarm is put behind the row, and taken away again if recording it fails |
| JobService.Service.Pause | src/job-service.ts:123-132 | the alarm is taken away, and put back if recording the pause fails |
| JobService.Service.Remove | src/job-service.ts:175-188 | the alarm is taken away before the row, and put back for an active row if deletion fails |
| JobService.Service.Create | src/job-service.ts:44-70 | a used key answers with its job and changes nothing; without faults it succeeds exactly for valid input, an owned session and fewer than ten active jobs; exhausted jobs stay exhausted and one fault parts no job from its alarm |
| JobService.Service.Update | src/job-service.ts:71-109 | the row keeps its count and key and becomes the validated merge, exhausted exactly if it was or its count has reached the new limit, a running one behind a new alarm; invalid merges change nothing; counts of no other row change; one fault parts no job from its alarm |
| JobService.Service.SetPaused | src/job-service.ts:110-135 | an exhausted job never resumes, a job already there is left alone, and otherwise status and alarm change and count, key and fields stay; without faults a resume is refused exactly at the limit of ten; one fault parts no job from its alarm |
| JobService.Service.Delete | src/job-service.ts:175-189 | success removes exactly that row; a failure removes none; one fault parts no job from its alarm |
| JobService.Service.RunJobNow | src/jobs.ts:142-206 | a run claims at most once, retires the alarm of a last run, and reports the counts after its claim |
| JobService.Service.Reserve | src/job-service.ts:140-162 | a known outcome is replayed, a run within its lease refused, otherwise the key is leased for five minutes |
| JobService.RanKeeps | src/jobs.ts:157-157 | a run keeps rows and alarms aligned, and the only alarm it can orphan is that of a last run whose cancellation failed |
| JobService.Service.Run | src/job-service.ts:136-174 | a key with an outcome answers just that and a live lease refuses; otherwise at most one claim, whose outcome is recorded under the key and answered as success or failed dispatch; an alarm is orphaned only by a last run whose cancellation failed |
| JobService.Serve | src/job-service.ts:44-189 | in any sequence of operations with failed calls anywhere, every operation answers as it promises from the state the one before left; at most ten jobs are active, every job not exhausted has runs left, exhausted jobs stay exhausted; if no operation but a run met more than one failed call, every active job has its alarm and the alarms no row accounts for are those there were before plus exactly those of last runs that could not be cancelled |
| JobService.CountsAlongLog | src/job-service.ts:44-189 | along any log of operations a job's count is what it was at first plus its claims, whatever is created, updated, paused, resumed or deleted between, and while its limit stays one value its claims never pass what that limit leaves |
| JobService.ServeOne | src/job-service.ts:44-189 | one operation of any kind: its answer as promised, rows in order, and with at most one failed call, or in a run, alignment kept and no alarm orphaned but the one it leaked |
| JobService.LoggedKeeps | src/job-service.ts:44-189 | over any log of such operations rows stay in order and the orphaned alarms are the earlier ones and those the log leaked |
| JobService.RunLeaks | src/jobs.ts:157-157 | a run leaves behind exactly the alarm of a last run it could not cancel, seen from the states before and after alone |
| Utf16.TrimExactly | src/desk-board.ts:46-47 | trimming takes away the spaces at both ends, all of them and nothing else |
| Utf16.ShortenSettles | src/desk-board.ts:55-56 | trimming then slicing settles on the second application, where it is trimming alone |
| Utf16.ShortenOnceIsEnough | src/desk-board.ts:55-56 | once is enough if and only if the cut is outside the text or just after a character that is no space |
| Utf16.ShortenTwiceDiffers | src/desk-board.ts:55-56 | a text for which the first application is not settled |
| DeskBoard.ParsedIsGood | src/desk-board.ts:44-62 | every parsed card has a legal id, a non-empty title, bounded fields and links that stay clean |
| DeskBoard.CardExactly | src/desk-board.ts:44-62 | a card needs an allowed id and a title; each field is the text sent, trimmed and cut; a link stays if and only if it fits and passes its check, a decision link also as a path here that is no action; a missing or unknown status is pending, a missing time is now |
| DeskBoard.GoodReparses | src/desk-board.ts:44-62 | a good card read back keeps everything but spaces at the end of its title and body |
| DeskBoard.CardSettlesOnSecondReading | src/desk-board.ts:44-62 | from the second reading on, reading a card back changes nothing |
| DeskBoard.CardSettledAtOnce | src/desk-board.ts:44-62 | the first reading is settled if and only if neither title nor body was cut just after a space |
| DeskBoard.ParseDeskBoard | src/desk-board.ts:29-42 | the loop keeps the first thirty valid cards, in order |
| DeskBoard.BoardExactly | src/desk-board.ts:29-42 | the board is the first thirty of exactly the cards that parse, in their order |
| DeskBoard.BoardSettles | src/desk-board.ts:29-42 | reading a board back twice is reading it back once |
| DeskBoard.UpsertPlaces | src/desk-board.ts:64-82 | an upsert puts exactly one card of that id in front, keeps the others in order, drops the last one of a full board, and the board stays good |
| DeskBoard.UpsertKeepsFields | src/desk-board.ts:68-78 | sending only an id and a status changes the status and the time of the card there, and of the rest only spaces at the end of its title and body, which go |
| DeskBoard.UpsertStoresWhatWasSent | src/desk-board.ts:64-82 | a card sent with all its fields is stored as it parses, with the time of the write, and refused exactly if it does not parse |
| DeskBoard.UpsertTakesOrKeeps | src/desk-board.ts:64-80 | an upsert is accepted exactly with an allowed id and a title sent or already there; every field that was sent is taken, every other one kept from the card of that id, and a new card has the defaults |
| DeskBoard.RemovePlaces | src/desk-board.ts:84-88 | a removal takes out the one card of that id and leaves the others in order; with no such card only the time changes |
| DeskBoard.RemoveUndoesUpsert | src/desk-board.ts:64-88 | removing a card just added to a board with room gives the old cards back |
| DeskStore.EncodeTells | src/desk-board-store.ts:16-16 | different boards are stored as different parsed contents |
| DeskStore.CompareAndSetExactly | src/desk-board-store.ts:14-27 | a write against the version read succeeds if and only if the row still has that version and does not hold the empty string |
| DeskStore.DeskRow.Read | src/desk-board-store.ts:5-12 | the board and the version read are those of the stored row |
| DeskStore.DeskRow.CompareAndSetBoard | src/desk-board-store.ts:14-27 | the row is replaced, or inserted, exactly as the compare-and-set says |
| DeskStore.ReplayKeepsGood | src/desk-board.ts:29-88 | whatever is committed onto nothing or a good board, the stored board keeps at most thirty valid cards with distinct ids |
| DeskStore.DeskRow.WriteWithCompareAndSet | src/desk-write.ts:31-52 | with others committing at will: success is one commit of this edit on the board stored at that moment, within the attempts; a conflict takes one commit of somebody else per attempt |
| DeskWriters.StepKeepsInv | src/desk-write.ts:31-52 | every interleaved read, compare-and-set, error or clearing keeps: the row is the replay of the log, what is held was computed from a prefix of it, every failed attempt is paid for, every success logged once |
| DeskWriters.LostMeansCommit | src/desk-write.ts:37-48 | a lost race means a commit since the read |
| DeskWriters.SerialisedByCas | src/desk-write.ts:31-52 | in every interleaving the stored board is the committed changes applied one after another in commit order, and the commits are exactly the successful writers' edits, once each |
| DeskWriters.BoardsStayGood | src/desk-board-store.ts:5-27 | every board ever stored from nothing or a good board is good, and so is every view of it |
| DeskWriters.StepExactly | src/desk-write.ts:31-52 | a writer fails only on a refused edit, succeeds exactly if the row still is what it read, and gives up only on losing its twelfth race |
| DeskWriters.UndisturbedWriterSaves | src/desk-write.ts:31-52 | a writer nobody comes between stores at once what its edit makes of the board, unless the row holds the empty string |
| DeskWriters.LastEditShows | src/desk-write.ts:31-52 | in every interleaving the row read after the last successful edit shows it: the sent card in front, or the removed card gone, with the time of that edit |
| DeskWriters.ConflictMeansTwelveCommits | src/desk-write.ts:37-50 | a writer that gives up has lost to at least twelve commits, none its own |
| DeskWriters.NoConflictAmongTwelve | src/desk-write.ts:3-50 | with at most twelve one-shot writers nobody ever ends in a conflict |
| DeskWriters.BlankStaysForever | src/desk-board-store.ts:8-21 | a row holding the empty string is never written by any writer, in any run without a clearing |
| DecisionResponse.StepKeepsInv | src/decision-response-program.ts:45-82 | every call, effective or failing, keeps: events are those of responders that still owe or own one, at most one responder holds the run, and it is completed exactly if one does |
| DecisionResponse.AtMostOneResume | src/decision-response-program.ts:57-68 | however responders interleave and whatever fails, at most one resume succeeds |
| DecisionResponse.CallExactly | src/decision-response-program.ts:45-82 | what each call does, by itself: which event it writes or deletes, when it completes or reopens the run, and where it leaves its responder |
| DecisionResponse.AnsweredWhenAllSucceed | src/decision-response-program.ts:55-68 | if every call succeeds and all have finished, the run is completed by exactly one responder, its event is the only one, and every other is told it was answered already |
| DecisionResponse.LateExactly | src/decision-response-program.ts:62-65 | a responder is told that the decision was answered only if its completion call found the run not open, and one whose call found it so ends just that way unless its event could not be deleted |
| DecisionResponse.ErrorsHaveCauses | src/decision-response-program.ts:55-80 | a failure is reported only for a call of that responder that failed: insertion, completion, resumption, reopening, or a deletion after coming late or failing to resume |
| DecisionResponse.WhatRemains | src/decision-response-program.ts:55-80 | once all have finished, the events left are the holder's and those whose deletion failed, and the run is completed exactly if there is a holder |
| DecisionResponse.RunLitters | src/decision-response-program.ts:58-80 | a run leaves no stray event if and only if every deletion it attempted took effect |
| DecisionResponse.CompletedIffOneEvent | src/decision-response-program.ts:45-82 | once all have finished, the run is completed with exactly one event left, or not completed with none, if and only if every deletion that was attempted took effect; unless superseded it is completed or open |
| DecisionResponse.FailedDeletionLeavesEvent | src/decision-response-program.ts:58-60 | a swallowed deletion failure leaves a stray event on an open run |
| DecisionResponse.Store.RecordDecisionResponse | src/decision-response-program.ts:45-82 | the program's answer is how its responder ended: true with the run completed and its event kept, false with none, or the failing step |
| MachineRelay.StepKeepsInv | src/machinectl-host.ts:158-317 | every event keeps: a call is pending exactly while its timer is armed, dispatched exactly if pending or answered and never both, at most 8 pending, answers never change |
| MachineRelay.EveryCallIsAnswered | src/machinectl-host.ts:265-317 | in every run, once no timer is armed every dispatched call has exactly one answer |
| MachineRelay.TimerAnswers | src/machinectl-host.ts:298-301 | a pending call whose timer fires is answered for good, whatever comes after |
| MachineRelay.ReplacementAnswersAll | src/machinectl-host.ts:158-178 | a new connection answers every call of the old one for good: no late result counts |
| MachineAnswers.AnswerExactly | src/machinectl-host.ts:158-317 | after any event a call has exactly the answer that event gives it, the laptop's own for a result from the active connection, and every other call keeps its answer or stays pending |
| MachineAnswers.ResultAnswers | src/machinectl-host.ts:196-212 | the content or error the active laptop sends for a pending call is its answer in every run that follows |
| MachineAnswers.AnswersHaveCauses | src/machinectl-host.ts:158-317 | in every run each answer was given by an event of that very kind: a result frame, a timeout, a replacement, a close, a failure or a failed send |
| MachineAnswers.HelloExactly | src/machinectl-host.ts:196-208 | after a valid hello of the active connection the tools and the name in memory and in storage are those of the frame; any other frame leaves them |
| MachineAnswers.GenerationExactly | src/machinectl-host.ts:158-227 | only a new connection makes another generation active, and only a close, failure or clean-up of the active or an unmarked socket leaves none |
| MachineAnswers.OfferedAfterConnect | src/machinectl-host.ts:158-178 | until its own hello a new laptop is offered with the tools stored by the one before |
| MachineAnswers.ClearingExactly | src/machinectl-host.ts:293-317 | a failed send leaves its socket to be cleaned up later, and nothing else does |
| MachineRelay.SupersededChangesNothing | src/machinectl-host.ts:187-227 | a frame, close or error from a superseded generation changes nothing |
| MachineRelay.SupersededForGood | src/machinectl-host.ts:187-227 | once superseded, a connection's frames and closes change nothing in any run that follows |
| MachineRelay.CloseIsHarmlessExactly | src/machinectl-host.ts:215-227 | a close leaves a connected laptop alone if and only if its socket carries a generation other than the active one |
| MachineRelay.UnmarkedSocket | src/machinectl-host.ts:187-227 | a socket without generation cannot speak, but its close clears even a newer connection |
| MachineRelay.MachineHost.AcceptLaptopConnection | src/machinectl-host.ts:158-178 | the new generation is active, the catalog in memory cleared, every pending call rejected |
| MachineRelay.MachineHost.WebSocketMessage | src/machinectl-host.ts:180-213 | frames count from the active generation only; a result resolves its own pending call, a valid hello publishes the catalog |
| MachineRelay.MachineHost.RejectPending | src/machinectl-host.ts:237-243 | all pending calls are answered with the one error, all their timers stopped |
| MachineRelay.MachineHost.ClearActiveSocket | src/machinectl-host.ts:215-227 | only the active or an unmarked socket clears catalog, generation and pending calls |
| MachineRelay.MachineHost.CallLaptop | src/machinectl-host.ts:293-317 | a call is entered with its timer, or, if sending fails, answered at once and taken out again |
| MachineRelay.MachineHost.TimerFires | src/machinectl-host.ts:298-301 | a timer that fires answers its own call as timed out and nothing else |
| MachineRelay.MachineHost.Invoke | src/machinectl-host.ts:249-265 | a call is dispatched exactly if a socket is open, the tool is on offer and fewer than 8 are pending |
| RegexScan.AtomsSpell | src/tool-output-limit.ts:78-103 | a pattern is the concatenation of its atoms: characters, escapes and classes |
| RegexScan.ScanFindsLookaround | src/tool-output-limit.ts:78-103 | the scan flags a pattern if and only if one of its atoms, neither escaped nor in a class, opens a lookaround |
| RegexScan.HasUnsupportedRegexLookaround | src/tool-output-limit.ts:78-103 | the index-and-flag loop decides exactly that |
| JsonTree.CopyIsSame | src/tool-output-limit.ts:109-113 | a copied value is the same value |
| SchemaSanitizer.SanitizeSchemaObject | src/tool-output-limit.ts:145-172 | the loop fills the record with exactly the sanitized fields |
| SchemaSanitizer.RolesAgree | src/tool-output-limit.ts:145-170 | each keyword is treated as the position it is: one pattern, two maps of schemas and the map keyed by patterns, the lists, and the single schemas; every other name is data |
| SchemaSanitizer.SanitizedIsClean | src/tool-output-limit.ts:115-172 | no schema position of the result has a lookaround |
| SchemaSanitizer.NoLookaroundLeft | src/tool-output-limit.ts:115-172 | following subschemas, at positions given by the keywords themselves, from the result, no schema reached has a lookaround in `pattern` or as a `patternProperties` key |
| SchemaSanitizer.SanitizeIsIdempotent | src/tool-output-limit.ts:115-172 | sanitizing twice is sanitizing once |
| SchemaSanitizer.ChangedExactly | src/tool-output-limit.ts:115-172 | a schema changes if and only if some schema nested in it, or itself, has a lookaround |
| SchemaSanitizer.SchemasSurvive | src/tool-output-limit.ts:115-172 | route by route, the schemas nested in the result are exactly the sanitized forms of those nested in the original, but for those under a `patternProperties` key with lookaround |
| SchemaSanitizer.NothingElseChanges | src/tool-output-limit.ts:115-172 | at every schema nested anywhere, what is no schema is carried over in order, the property names of every map of schemas stay, and only a `pattern` or a `patternProperties` key with lookaround goes |
| SchemaSanitizer.DataUntouched | src/tool-output-limit.ts:169-169 | within one schema, whatever stands under any other key is carried over untouched, in order |
| SchemaSanitizer.OnlyPatternsGo | src/tool-output-limit.ts:147-148 | of a schema's own fields only a `pattern` with lookaround disappears |
| Utf8.DecodeEncoded | src/tool-output-limit.ts:6-7 | strict decoding undoes encoding (RFC 3629) |
| Utf8.EncodeDecoded | src/tool-output-limit.ts:6-7 | encoding undoes strict decoding: no second encoding of a text is accepted |
| Utf8.PrefixOfEncoding | src/tool-output-limit.ts:17-26 | a text whose encoding starts another's is the start of it |
| ToolOutputLimit.DecodesAtBoundary | src/tool-output-limit.ts:19-26 | a prefix of the bytes decodes if and only if it ends between two characters, and then to the characters before |
| ToolOutputLimit.LastBoundary | src/tool-output-limit.ts:19-26 | the first prefix that decodes, counting down from the limit, is the longest that fits and at most three bytes short of it |
| ToolOutputLimit.LimitModelToolOutput | src/tool-output-limit.ts:10-29 | over the limit, the longest whole-character prefix is kept and its bytes reported truthfully; the text kept is that prefix if and only if it does not start with a byte order mark |
| Base64Url.B64UrlEncode | src/grant-crypto.ts:26-30 | the byte loop and the replacements compute the base64url text |
| Base64Url.B64UrlDecode | src/grant-crypto.ts:32-40 | the padded text is decoded into a fresh byte array, or refused |
| Base64Url.EncodedExactly | src/grant-crypto.ts:26-30 | character by character, the encoding is the letter of each six bits in turn, and ends where the bits do (RFC 4648, sections 4 and 5) |
| Base64Url.DecodeUndoesEncode | src/grant-crypto.ts:26-40 | decoding undoes encoding for every byte sequence |
| Base64Url.EncodedIsUrlSafe | src/grant-crypto.ts:29-29 | encoded text has only letters, digits, - and _, and is empty only for no bytes |
| GrantCrypto.BlobSplits | src/grant-crypto.ts:97-107 | a blob splits back into exactly its four parts |
| GrantCrypto.BlobIsInOrder | src/grant-crypto.ts:79-98 | a blob is the version, then salt, iv and ciphertext in base64url, sealed under the key of that salt and scope; encryption fails exactly if the master key does |
| GrantCrypto.BlobLooksEncrypted | src/grant-crypto.ts:97-128 | a blob is recognised if and only if salt, iv and ciphertext are not empty |
| GrantCrypto.RecognisedExactly | src/grant-crypto.ts:123-128 | a stored value counts as encrypted if and only if it is v, digits and three non-empty parts between dots, so a token without a dot never does |
| GrantCrypto.DecryptOpens | src/grant-crypto.ts:100-121 | decrypting under any scope opens exactly the blob's ciphertext, iv and salt with that scope's key and associated data |
| GrantCrypto.DecryptRefusesExactly | src/grant-crypto.ts:100-121 | a stored value is refused for the first fault that applies: not four parts, another version, a part that is no base64url, the master key, a ciphertext that does not open |
| GrantCrypto.DecryptUndoesEncrypt | src/grant-crypto.ts:79-121 | if opening undoes sealing, decrypting gives the plaintext back, exactly if it does not start with a byte order mark |
| GrantCrypto.ScopesAreBound | src/grant-crypto.ts:62-66 | two scopes never share associated data or key-derivation info |
| GrantCrypto.MasterKeyImports | src/grant-crypto.ts:49-55 | in padded standard base64 and in base64url alike, 32 bytes or more are imported as they are, and fewer are refused |
| GrantCrypto.ForeignKeyIsRefused | src/grant-crypto.ts:49-50 | a master key with a character that is in no base64 alphabet, no padding and no space is refused |
| ToolIdSanitize.Fnv1a32Hex | src/tool-id-sanitize.ts:48-55 | the loop computes 32-bit FNV-1a, written as hexadecimal digits padded to eight |
| ToolIdSanitize.SuffixIsNine | src/tool-id-sanitize.ts:44-45 | the suffix of an over-long id is nine legal characters |
| ToolIdSanitize.SanitizedExactly | src/tool-id-sanitize.ts:39-46 | a legal id stays, any other becomes its escape, nothing becomes the fixed token, and an escape over 64 its first 55 units with an underscore and the hash of all of it |
| ToolIdSanitize.FnvKnownRounds | src/tool-id-sanitize.ts:48-55 | the rounds of hashing two published texts give the published values |
| ToolIdSanitize.SanitizedIsValid | src/tool-id-sanitize.ts:39-46 | whatever the id, the result is legal and at most 64 long |
| ToolIdSanitize.SanitizeIsIdempotent | src/tool-id-sanitize.ts:39-46 | an id is left alone if and only if it is valid, and sanitizing twice is sanitizing once |
| ToolIdSanitize.UnescapeUndoesEscape | src/tool-id-sanitize.ts:41-41 | the escape of an underscore-free id is uniquely decodable |
| ToolIdSanitize.DistinctIdsStayDistinct | src/tool-id-sanitize.ts:39-46 | distinct underscore-free ids whose escapes fit in 64 stay distinct, and a non-empty one differs from the token for no id |
| ToolIdSanitize.CollidesExactly | src/tool-id-sanitize.ts:32-46 | among ids whose escapes fit in 64, an id shares its sanitized form with another if and only if it has to be rewritten, is the fallback token, or contains what reads like the escape of an illegal character |
| ToolIdSanitize.MeetsItsEscape | src/tool-id-sanitize.ts:39-46 | every id that has to be rewritten, and fits, meets the id that is spelled like its escape |
| ToolIdSanitize.UnderscoresCanCollide | src/tool-id-sanitize.ts:41-41 | a concrete pair: an id with a dot and the id spelled like its escape |
| ToolIdSanitize.SanitizeToolCallIds | src/tool-id-sanitize.ts:63-92 | every tool id of the history is healed, nothing else changes, and the change flag is set exactly if something did |
| ToolIdSanitize.CallAndResultStayLinked | src/tool-id-sanitize.ts:63-92 | a call and a result anywhere in the history that shared an id share a valid one afterwards |

## Left out

- Time, randomness and ids: clocks, deadlines, backoff lengths, UUIDs and salts are parameters or arbitrary choices; fresh ids are assumed fresh, and one parse of a board reads the clock once.
- The task hash, the rate-limit text classifier and the deferral notice of the delegate scheduler are parameters of its configuration.
- The deadline of the delegate scheduler is tested only before admission, as in the code; nothing is claimed about it when a queued task wakes.
- Failing calls to the file system, the database, the alarms and the sockets have no effect in the model; calls that take effect and then report failure are not modelled.
- The workspace is one finite tree that nobody else changes during a call; a symbolic link has nothing below it, entry names are valid, and a file is valid UTF-8 whose size is its byte length, so the second size check after reading never fires.
- ComputerGrep.Grep: starts after the path is resolved, the query's length is checked and the home directory is made sure of, which `EnsureHome` models, and does not fix the order in which a directory is listed.
- Reading and listing a single file or directory, workspace disposal and health reporting: they would only add easy members.
- The pinned query is a relation between rows and table; equal ranks, which only a write from an old snapshot can make, are ordered by update time in the query but not in the theorems.
- Job rows of other owners: every statement is qualified by owner, so one owner's rows are modelled; run times, last errors, receipts and notifications are not.
- JobService.Service.Run: the dispatched turn itself, its receipt and the published change are not modelled, and a prompt's delivery is an arbitrary success or failure.
- JobService.Serve: operations follow one another; how their statements can interleave is modelled in `Jobs`, without the alarms.
- Evidence rows without an idempotency key are only counted as calls that can fail; history reading is not modelled.
- DeskStore.EncodeTells: the stored text is its parsed content and a spelling number, so that JSON spells different contents differently is built in, not proved.
- The URL check of card links is a parameter; stored boards are told apart by their parsed content and a spelling number instead of by characters.
- The unconditional clearing of a desk board is a step of the writers' machine; the desk app stored beside the board is not modelled.
- DeskWriters.NoConflictAmongTwelve: holds without clearing steps and for a row that is not the empty string, which is exactly what the code needs.
- Creating, reusing and superseding decisions: superseding appears as one step that aborts an open run.
- The relay's handlers are atomic, as the platform's input gates make them while storage is awaited; the clean-up after a failed send is a later step. Tool catalogs are names, result texts are opaque, receipts are not modelled.
- Wrapping tool sets and validators of the AI SDK around the schema sanitizer, and spilling full output to a file.
- Properties named `__proto__` and the order of numeric property names in JavaScript objects.
- AES-GCM and HKDF are parameters with their inverse law only; text is a sequence of Unicode scalar values, so lone surrogates appear only where UTF-16 units are modelled.
- Distinctness of shortened tool ids: the hash suffix is proved legal and of fixed length, not collision-free.
- The HTTP routes, the agent class, prompts, user interface, model calls, browser and voice code.
