/** The stored desk board and its compare-and-set, whose version is the stored text (src/desk-board-store.ts, src/desk-write.ts). */
module DeskStore {
  import opened Wrappers
  import opened Utf16
  import opened DeskBoard

  const DESK_WRITE_MAX_ATTEMPTS := 12

  /** What a row can hold: the empty string, text that is no JSON, or one of the spellings of a board. */
  datatype StoredText = Blank | Garbage(text: nat) | Doc(raw: RawBoard, spelling: nat)

  type Stored = Option<StoredText>

  /** `JSON.stringify`: one spelling for each board. */
  function Encode(b: Board): StoredText { Doc(AsRaw(b), 0) }

  /** The board a reader sees. */
  function View(s: Stored, now: Text, remote: Text -> bool): Board {
    if s.Some? && s.value.Doc? then BoardOf(s.value.raw, now, remote) else EmptyDeskBoard(now)
  }

  /** The version a reader gets along: the text itself, or none for a missing or empty row. */
  function Version(s: Stored): Stored { if s == Some(Blank) then None else s }

  /** Insert if nothing was read, replace if the text is still the one that was read. */
  function CompareAndSet(s: Stored, next: Board, expected: Stored): (Stored, bool) {
    if expected.None? then (if s.None? then (Some(Encode(next)), true) else (s, false))
    else if s == expected then (Some(Encode(next)), true) else (s, false)
  }

  lemma {:induction false} RawCardsTell(a: seq<Card>, b: seq<Card>)
    requires AsRawCards(a) == AsRawCards(b)
    ensures a == b
    decreases |a|
  {
    if a != [] && b != [] {
      var n, m := |a| - 1, |b| - 1;
      assert AsRawCards(a)[..|AsRawCards(a)| - 1] == AsRawCards(a[..n]);
      assert AsRawCards(b)[..|AsRawCards(b)| - 1] == AsRawCards(b[..m]);
      RawCardsTell(a[..n], b[..m]);
      assert AsRawCard(a[n]) == AsRawCards(a)[|AsRawCards(a)| - 1] == AsRawCard(b[m]);
      assert a == a[..n] + [a[n]] && b == b[..m] + [b[m]];
    }
  }

  /** Different boards are stored as different texts. */
  lemma EncodeTells(a: Board, b: Board)
    requires Encode(a) == Encode(b)
    ensures a == b
  {
    RawCardsTell(a.cards, b.cards);
  }

  /** A write against the version just read succeeds exactly when the row has that version and does not hold the empty string. */
  lemma CompareAndSetExactly(read: Stored, s: Stored, next: Board)
    ensures CompareAndSet(s, next, Version(read)).1 <==> Version(s) == Version(read) && s != Some(Blank)
    ensures CompareAndSet(s, next, Version(read)).0 == if CompareAndSet(s, next, Version(read)).1 then Some(Encode(next)) else s
  {
  }

  // ---------------------------------------------------------------- commits

  datatype Edit = Upsert(card: RawCard) | Remove(id: Value)

  function ApplyEdit(e: Edit, b: Board, now: Text, remote: Text -> bool): Result<Board, DeskError> {
    match e
    case Upsert(card) => UpsertDeskCard(b, card, now, remote)
    case Remove(id) => RemoveDeskCard(b, id, now)
  }

  /** A change that reached the store: an edit by one writer, or the whole board cleared. */
  datatype Commit = Edited(writer: nat, edit: Edit, readAt: Text, at: Text) | Cleared(at: Text)

  function AfterCommit(s: Stored, c: Commit, remote: Text -> bool): Stored {
    match c
    case Edited(_, edit, readAt, at) =>
      var next := ApplyEdit(edit, View(s, readAt, remote), at, remote);
      if next.Ok? then Some(Encode(next.value)) else s
    case Cleared(at) => Some(Encode(EmptyDeskBoard(at)))
  }

  /** The commits applied one after another. */
  function Replay(s: Stored, log: seq<Commit>, remote: Text -> bool): Stored {
    if log == [] then s else AfterCommit(Replay(s, log[..|log| - 1], remote), log[|log| - 1], remote)
  }

  lemma ReplayOne(s: Stored, log: seq<Commit>, c: Commit, remote: Text -> bool)
    ensures Replay(s, log + [c], remote) == AfterCommit(Replay(s, log, remote), c, remote)
  {
    assert (log + [c])[..|log|] == log;
  }

  lemma {:induction false} ReplayAppends(s: Stored, a: seq<Commit>, b: seq<Commit>, remote: Text -> bool)
    ensures Replay(s, a + b, remote) == Replay(Replay(s, a, remote), b, remote)
  {
    if b == [] {
      assert a + b == a;
    } else {
      ReplayAppends(s, a, b[..|b| - 1], remote);
      assert (a + b)[..|a + b| - 1] == a + b[..|b| - 1];
    }
  }

  lemma {:induction false} ReplayNeverBlank(s: Stored, log: seq<Commit>, remote: Text -> bool)
    requires s != Some(Blank)
    ensures Replay(s, log, remote) != Some(Blank)
  {
    if log != [] { ReplayNeverBlank(s, log[..|log| - 1], remote); }
  }

  // ---------------------------------------------------------------- what the commits build

  /** Nothing stored yet, or a good board as the program writes it. */
  ghost predicate GoodStored(s: Stored, remote: Text -> bool) {
    s.None? || exists b :: s == Some(Encode(b)) && GoodBoard(b, remote)
  }

  lemma GoodView(s: Stored, now: Text, remote: Text -> bool)
    requires GoodStored(s, remote)
    ensures GoodBoard(View(s, now, remote), remote)
  {
    if s.Some? {
      var b :| s == Some(Encode(b)) && GoodBoard(b, remote);
      BoardReparses(b, now, remote);
    }
  }

  lemma CommitKeepsGood(s: Stored, c: Commit, remote: Text -> bool)
    requires GoodStored(s, remote)
    ensures GoodStored(AfterCommit(s, c, remote), remote)
  {
    if c.Edited? {
      var board := View(s, c.readAt, remote);
      GoodView(s, c.readAt, remote);
      var next := ApplyEdit(c.edit, board, c.at, remote);
      if next.Ok? {
        if c.edit.Upsert? { UpsertPlaces(board, c.edit.card, c.at, remote); } else { RemovePlaces(board, c.edit.id, c.at, remote); }
        assert GoodBoard(next.value, remote);
      }
    } else {
      assert GoodBoard(EmptyDeskBoard(c.at), remote);
    }
  }

  /** Whatever is committed onto an empty store, the board has at most thirty cards, all valid, with distinct ids. */
  lemma {:induction false} ReplayKeepsGood(s: Stored, log: seq<Commit>, remote: Text -> bool)
    requires GoodStored(s, remote)
    ensures GoodStored(Replay(s, log, remote), remote)
  {
    if log != [] {
      ReplayKeepsGood(s, log[..|log| - 1], remote);
      CommitKeepsGood(Replay(s, log[..|log| - 1], remote), log[|log| - 1], remote);
    }
  }

  // ---------------------------------------------------------------- one writer against all others

  datatype WriteError = Refused(error: DeskError) | DeskWriteConflict | DeskWriteIoError

  datatype Written = Written(board: Board, attempts: nat)

  predicate NoneBy(log: seq<Commit>, me: nat) { forall k :: 0 <= k < |log| ==> log[k].Edited? ==> log[k].writer != me }

  class DeskRow {
    var stored: Stored
    ghost var log: seq<Commit>

    constructor (s: Stored)
      ensures stored == s && log == []
    {
      stored, log := s, [];
    }

    /** Between two steps of a writer, any number of commits by others. */
    method Others(me: nat, remote: Text -> bool) returns (ghost more: seq<Commit>)
      modifies this
      ensures log == old(log) + more && stored == Replay(old(stored), more, remote) && NoneBy(more, me)
    {
      more := [];
      var n, k := *, 0;
      while k < n
        invariant log == old(log) + more && stored == Replay(old(stored), more, remote) && NoneBy(more, me)
      {
        var c: Commit := *;
        if !(c.Edited? && c.writer == me) {
          ReplayOne(old(stored), more, c, remote);
          stored, log, more := AfterCommit(stored, c, remote), log + [c], more + [c];
        }
        k := k + 1;
      }
    }

    /** Read the board and its version. */
    method Read(now: Text, remote: Text -> bool) returns (board: Board, version: Stored)
      ensures board == View(stored, now, remote) && version == Version(stored)
    {
      version := if stored.None? || stored.value == Blank then None else stored;
      if stored.Some? && stored.value.Doc? {
        board := ParseDeskBoard(stored.value.raw, now, remote);
      } else {
        board := EmptyDeskBoard(now);
      }
    }

    method CompareAndSetBoard(board: Board, expected: Stored, ghost c: Commit) returns (written: bool)
      modifies this
      ensures (stored, written) == CompareAndSet(old(stored), board, expected)
      ensures log == if written then old(log) + [c] else old(log)
    {
      written := if expected.None? then stored.None? else stored == expected;
      if written { stored, log := Some(Encode(board)), log + [c]; }
    }

    /** One attempt: read, apply, compare and set, with others at work in between.  No board means the race was lost. */
    method TryOnce(me: nat, edit: Edit, remote: Text -> bool) returns (r: Result<Option<Board>, WriteError>, ghost more: seq<Commit>)
      modifies this
      ensures log == old(log) + more && stored == Replay(old(stored), more, remote)
      ensures if r.Ok? && r.value.Some? then stored == Some(Encode(r.value.value)) && EndsWith(more, me, edit) else NoneBy(more, me)
      ensures r == Ok(None) && old(stored) != Some(Blank) ==> more != []
      ensures r.Err? ==> r.error != DeskWriteConflict
    {
      more := [];
      var failed := *;
      if failed { return Err(DeskWriteIoError), more; }
      var readAt: Text := *;
      var at: Text := *;
      var board, version := Read(readAt, remote);
      var next := ApplyEdit(edit, board, at, remote);
      if next.Err? { return Err(Refused(next.error)), more; }
      more := Others(me, remote);
      failed := *;
      if failed { return Err(DeskWriteIoError), more; }
      ghost var own := Edited(me, edit, readAt, at);
      CompareAndSetExactly(old(stored), stored, next.value);
      ReplayOne(old(stored), more, own, remote);
      var written := CompareAndSetBoard(next.value, version, own);
      if !written { return Ok(None), more; }
      assert (more + [own])[..|more|] == more;
      return Ok(Some(next.value)), more + [own];
    }

    /**
     At most `maxAttempts` attempts.  Success is one commit of this edit on the board stored at that
     moment; a conflict takes at least one commit by somebody else for every attempt.
     */
    method WriteWithCompareAndSet(me: nat, edit: Edit, maxAttempts: nat, remote: Text -> bool)
      returns (r: Result<Written, WriteError>, ghost more: seq<Commit>)
      modifies this
      ensures log == old(log) + more && stored == Replay(old(stored), more, remote)
      ensures r.Ok? ==> 1 <= r.value.attempts <= maxAttempts && stored == Some(Encode(r.value.board)) && EndsWith(more, me, edit)
      ensures r.Err? ==> NoneBy(more, me)
      ensures r == Err(DeskWriteConflict) && old(stored) != Some(Blank) ==> |more| >= maxAttempts
    {
      more := [];
      var attempt := 1;
      while attempt <= maxAttempts
        invariant 1 <= attempt <= maxAttempts + 1
        invariant log == old(log) + more && stored == Replay(old(stored), more, remote) && NoneBy(more, me)
        invariant old(stored) != Some(Blank) ==> |more| >= attempt - 1
      {
        ReplayNeverBlankIf(old(stored), more, remote);
        ghost var before, latest := more, [];
        ghost var was, rows := stored, log;
        var tried;
        tried, latest := TryOnce(me, edit, remote);
        Chain(old(stored), old(log), was, rows, before, latest, remote);
        more := before + latest;
        if tried.Err? { return Err(tried.error), more; }
        if tried.value.Some? {
          EndsLate(before, latest, me, edit);
          return Ok(Written(tried.value.value, attempt)), more;
        }
        was, rows, before := stored, log, more;
        latest := Others(me, remote);
        Chain(old(stored), old(log), was, rows, before, latest, remote);
        more := before + latest;
        attempt := attempt + 1;
      }
      return Err(DeskWriteConflict), more;
    }
  }

  lemma Chain(s: Stored, log: seq<Commit>, later: Stored, grown: seq<Commit>, a: seq<Commit>, b: seq<Commit>, remote: Text -> bool)
    requires grown == log + a && later == Replay(s, a, remote)
    ensures grown + b == log + (a + b) && Replay(later, b, remote) == Replay(s, a + b, remote)
    ensures forall me :: NoneBy(a, me) && NoneBy(b, me) ==> NoneBy(a + b, me)
  {
    ReplayAppends(s, a, b, remote);
  }

  /** The last commit is this writer's, and the only one of its own. */
  ghost predicate EndsWith(log: seq<Commit>, me: nat, edit: Edit) {
    && log != [] && NoneBy(log[..|log| - 1], me)
    && log[|log| - 1].Edited? && log[|log| - 1].writer == me && log[|log| - 1].edit == edit
  }

  lemma EndsLate(a: seq<Commit>, b: seq<Commit>, me: nat, edit: Edit)
    requires NoneBy(a, me) && EndsWith(b, me, edit)
    ensures EndsWith(a + b, me, edit)
  {
    assert (a + b)[..|a + b| - 1] == a + b[..|b| - 1];
  }

  lemma ReplayNeverBlankIf(s: Stored, log: seq<Commit>, remote: Text -> bool)
    ensures s != Some(Blank) ==> Replay(s, log, remote) != Some(Blank)
  {
    if s != Some(Blank) { ReplayNeverBlank(s, log, remote); }
  }
}
