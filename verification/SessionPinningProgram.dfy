/**
 Pinning and reordering against the sessions table (src/session-pinning-program.ts).  Each operation awaits
 its SELECT before its UPDATE, so what it read is a parameter of its own: a snapshot of the table, which
 may have changed by the time the UPDATE acts on it.
 */
module SessionPinningProgram {
  import opened Wrappers
  import opened FractionalIndex
  import opened SessionPinning

  const MAX_PINNED := 20

  datatype Session = Session(owner: Key, pinned: bool, rank: Option<string>, updatedAt: int)

  datatype PinResult = PinResult(id: Key, pinned: bool, rank: Option<string>)

  datatype PinError = PinLimit | RankFailure(cause: RankError)

  type Sessions = map<Key, Session>

  predicate Listed(s: Session, email: Key) { s.owner == email && s.pinned }

  function PinnedIds(sessions: Sessions, email: Key): set<Key> {
    set id | id in sessions && Listed(sessions[id], email)
  }

  /** `ORDER BY pin_rank ASC, updated_at DESC`, a missing rank first: `b` must not come after `a`. */
  predicate SortsBefore(b: Session, a: Session) {
    if b.rank == a.rank then b.updatedAt > a.updatedAt
    else b.rank.None? || (a.rank.Some? && Less(b.rank.value, a.rank.value))
  }

  /** What `SELECT id, pin_rank ... WHERE owner_email = ? AND pinned = 1 ORDER BY ...` may return. */
  ghost predicate IsQuery(rows: seq<PinnedRow>, sessions: Sessions, email: Key) {
    && (forall i :: 0 <= i < |rows| ==>
          && rows[i].id in PinnedIds(sessions, email)
          && rows[i].rank == sessions[rows[i].id].rank)
    && (forall id :: id in PinnedIds(sessions, email) ==> exists i :: 0 <= i < |rows| && rows[i].id == id)
    && (forall i, j :: 0 <= i < j < |rows| ==>
          rows[i].id != rows[j].id && !SortsBefore(sessions[rows[j].id], sessions[rows[i].id]))
  }

  /** Every pinned row has a valid rank, and no two of one owner share one. */
  ghost predicate RanksOk(sessions: Sessions) {
    && (forall id :: id in sessions && sessions[id].pinned ==>
          sessions[id].rank.Some? && IsValidRank(sessions[id].rank.value))
    && (forall a, b ::
          a in sessions && b in sessions && a != b && Listed(sessions[a], sessions[b].owner) && sessions[b].pinned ==>
          sessions[a].rank != sessions[b].rank)
  }

  function TableOf(sessions: Sessions, email: Key): Table {
    map id | id in sessions && Listed(sessions[id], email) && sessions[id].rank.Some? :: sessions[id].rank.value
  }

  /** While the ranks are in order, the query returns the display order. */
  lemma QueryIsDisplay(rows: seq<PinnedRow>, sessions: Sessions, email: Key)
    requires RanksOk(sessions) && IsQuery(rows, sessions, email)
    ensures IsDisplay(rows, TableOf(sessions, email)) && TableOf(sessions, email).Keys == PinnedIds(sessions, email)
  {
    forall i, j | 0 <= i < j < |rows| ensures Less(rows[i].rank.value, rows[j].rank.value) {
      var a, b := sessions[rows[i].id], sessions[rows[j].id];
      assert a.rank != b.rank && !SortsBefore(b, a);
      LessTotal(a.rank.value, b.rank.value);
    }
    forall id | id in TableOf(sessions, email) ensures exists i :: 0 <= i < |rows| && rows[i].id == id {
      assert id in PinnedIds(sessions, email);
    }
  }

  // ---------------------------------------------------------------- there is such a query

  /** Rows of these ids in query order. */
  ghost predicate Ordered(rows: seq<PinnedRow>, sessions: Sessions) {
    && (forall i :: 0 <= i < |rows| ==> rows[i].id in sessions && rows[i].rank == sessions[rows[i].id].rank)
    && (forall i, j :: 0 <= i < j < |rows| ==>
          rows[i].id != rows[j].id && !SortsBefore(sessions[rows[j].id], sessions[rows[i].id]))
  }

  ghost function Ids(rows: seq<PinnedRow>): set<Key> { set r | r in rows :: r.id }

  lemma SortingIsStrict(a: Session, b: Session, c: Session)
    ensures !SortsBefore(a, a)
    ensures SortsBefore(a, b) && SortsBefore(b, c) ==> SortsBefore(a, c)
  {
    if a.rank.Some? && b.rank.Some? && c.rank.Some? {
      LessIrreflexive(a.rank.value);
      if Less(a.rank.value, b.rank.value) && Less(b.rank.value, c.rank.value) {
        LessTransitive(a.rank.value, b.rank.value, c.rank.value);
      }
    }
  }

  lemma FirstInOrder(rows: seq<PinnedRow>, row: PinnedRow, sessions: Sessions)
    requires Ordered(rows, sessions) && row.id in sessions && row.id !in Ids(rows) && row.rank == sessions[row.id].rank
    requires forall j :: 0 <= j < |rows| ==> !SortsBefore(sessions[rows[j].id], sessions[row.id])
    ensures Ordered([row] + rows, sessions) && Ids([row] + rows) == Ids(rows) + {row.id}
  {
    var all := [row] + rows;
    forall j | 0 <= j < |rows| ensures rows[j].id != row.id { assert rows[j] in rows; }
    assert forall r :: r in all <==> r == row || r in rows;
  }

  lemma {:induction false} Inserted(rows: seq<PinnedRow>, row: PinnedRow, sessions: Sessions) returns (all: seq<PinnedRow>)
    requires Ordered(rows, sessions) && row.id in sessions && row.id !in Ids(rows) && row.rank == sessions[row.id].rank
    ensures Ordered(all, sessions) && Ids(all) == Ids(rows) + {row.id}
    ensures forall r :: r in all ==> r == row || r in rows
  {
    if rows == [] || SortsBefore(sessions[row.id], sessions[rows[0].id]) {
      forall j | 0 <= j < |rows| ensures !SortsBefore(sessions[rows[j].id], sessions[row.id]) {
        SortingIsStrict(sessions[rows[j].id], sessions[row.id], sessions[rows[0].id]);
        SortingIsStrict(sessions[rows[0].id], sessions[row.id], sessions[rows[0].id]);
      }
      FirstInOrder(rows, row, sessions);
      all := [row] + rows;
    } else {
      var rest := Inserted(rows[1..], row, sessions);
      forall j | 0 <= j < |rest| ensures !SortsBefore(sessions[rest[j].id], sessions[rows[0].id]) {
        if rest[j] != row {
          assert rest[j] in rows[1..];
          var k :| 0 <= k < |rows[1..]| && rows[1..][k] == rest[j];
          assert rows[k + 1] == rest[j];
        }
      }
      TailIds(rows);
      FirstInOrder(rest, rows[0], sessions);
      all := [rows[0]] + rest;
    }
  }

  lemma TailIds(rows: seq<PinnedRow>)
    requires rows != [] && forall i, j :: 0 <= i < j < |rows| ==> rows[i].id != rows[j].id
    ensures Ids(rows) == Ids(rows[1..]) + {rows[0].id} && rows[0].id !in Ids(rows[1..])
  {
    assert forall r :: r in rows <==> r == rows[0] || r in rows[1..];
    forall r | r in rows[1..] ensures r.id != rows[0].id {
      var k :| 0 <= k < |rows[1..]| && rows[1..][k] == r;
      assert rows[k + 1] == r;
    }
  }

  lemma {:induction false} OrderedRows(ids: set<Key>, sessions: Sessions) returns (rows: seq<PinnedRow>)
    requires ids <= sessions.Keys
    ensures Ordered(rows, sessions) && Ids(rows) == ids
  {
    rows := [];
    if ids != {} {
      var id :| id in ids;
      var rest := OrderedRows(ids - {id}, sessions);
      rows := Inserted(rest, PinnedRow(id, sessions[id].rank), sessions);
    }
  }

  /** Whatever the table holds, equal and missing ranks included, the query has an answer. */
  lemma QueryExists(sessions: Sessions, email: Key) returns (rows: seq<PinnedRow>)
    ensures IsQuery(rows, sessions, email)
  {
    rows := OrderedRows(PinnedIds(sessions, email), sessions);
    forall i | 0 <= i < |rows| ensures rows[i].id in PinnedIds(sessions, email) {
      assert rows[i] in rows && rows[i].id in Ids(rows);
    }
    forall id | id in PinnedIds(sessions, email) ensures exists i :: 0 <= i < |rows| && rows[i].id == id {
      assert id in Ids(rows);
      var r :| r in rows && r.id == id;
    }
  }

  lemma RowsCountIds(rows: seq<PinnedRow>, ids: set<Key>)
    requires forall i :: 0 <= i < |rows| ==> rows[i].id in ids
    requires forall id :: id in ids ==> exists i :: 0 <= i < |rows| && rows[i].id == id
    requires forall i, j :: 0 <= i < j < |rows| ==> rows[i].id != rows[j].id
    ensures |rows| == |ids|
  {
    if rows == [] {
      assert ids == {};
    } else {
      var last := |rows| - 1;
      var rest := ids - {rows[last].id};
      forall id | id in rest ensures exists i :: 0 <= i < last && rows[..last][i].id == id {
        var i :| 0 <= i < |rows| && rows[i].id == id;
        assert i != last && rows[..last][i].id == id;
      }
      RowsCountIds(rows[..last], rest);
    }
  }

  lemma QueryListsPinned(rows: seq<PinnedRow>, sessions: Sessions, email: Key, id: Key)
    requires IsQuery(rows, sessions, email)
    ensures |rows| == |PinnedIds(sessions, email)|
    ensures Find(rows, id).Some? <==> id in PinnedIds(sessions, email)
  {
    RowsCountIds(rows, PinnedIds(sessions, email));
  }

  lemma PinnedIdsAfter(sessions: Sessions, email: Key, id: Key, s: Session)
    requires id in sessions && sessions[id].owner == s.owner == email
    ensures PinnedIds(sessions[id := s], email) ==
            if s.pinned then PinnedIds(sessions, email) + {id} else PinnedIds(sessions, email) - {id}
  {
  }

  /** No other pinned row of the owner holds the rank. */
  ghost predicate Unused(sessions: Sessions, email: Key, id: Key, rank: string) {
    var table := TableOf(sessions, email); forall b :: b in table && b != id ==> table[b] != rank
  }

  /** Rewriting one row keeps the ranks in order exactly if nobody else of its owner holds its rank. */
  lemma RerankExactly(sessions: Sessions, id: Key, s: Session)
    requires RanksOk(sessions) && id in sessions && s.owner == sessions[id].owner
    requires s.pinned ==> s.rank.Some? && IsValidRank(s.rank.value)
    ensures RanksOk(sessions[id := s]) <==> (s.pinned ==> Unused(sessions, s.owner, id, s.rank.value))
  {
    var after := sessions[id := s];
    if s.pinned && Unused(sessions, s.owner, id, s.rank.value) {
      forall b | b in sessions && b != id && sessions[b].pinned && sessions[b].owner == s.owner ensures sessions[b].rank != s.rank {
        assert b in TableOf(sessions, s.owner);
      }
    }
    if s.pinned && RanksOk(after) {
      forall b | b in TableOf(sessions, s.owner) && b != id ensures TableOf(sessions, s.owner)[b] != s.rank.value {
        assert Listed(after[b], after[id].owner) && after[b].rank != after[id].rank;
      }
    }
  }

  predicate Owned(sessions: Sessions, email: Key, id: Key) { id in sessions && sessions[id].owner == email }

  /** `UPDATE sessions SET pinned = ?, pin_rank = ? WHERE id = ? AND owner_email = ?`. */
  function PinRow(sessions: Sessions, email: Key, id: Key, pinned: bool, rank: Option<string>): Sessions {
    if Owned(sessions, email, id) then sessions[id := sessions[id].(pinned := pinned, rank := rank)] else sessions
  }

  /** `UPDATE sessions SET pin_rank = ? WHERE id = ? AND owner_email = ? AND pinned = 1`. */
  function RankRow(sessions: Sessions, email: Key, id: Key, rank: string): Sessions {
    if id in PinnedIds(sessions, email) then sessions[id := sessions[id].(rank := Some(rank))] else sessions
  }

  /** One row has the new pin and rank; its owner, its time and every other row are as they were. */
  ghost predicate RowWritten(before: Sessions, after: Sessions, id: Key, pinned: bool, rank: Option<string>) {
    && after.Keys == before.Keys && (forall k :: k in before && k != id ==> after[k] == before[k])
    && id in before && after[id] == Session(before[id].owner, pinned, rank, before[id].updatedAt)
  }

  /** The row of a conversation this owner has is written, pinned or unpinned; nobody else's ever is. */
  lemma PinRowExactly(sessions: Sessions, email: Key, id: Key, pinned: bool, rank: Option<string>)
    ensures var after := PinRow(sessions, email, id, pinned, rank);
            && (if id in sessions && sessions[id].owner == email then RowWritten(sessions, after, id, pinned, rank) else after == sessions)
            && (id in PinnedIds(after, email) <==> pinned && id in sessions && sessions[id].owner == email)
            && PinnedIds(after, email) - {id} == PinnedIds(sessions, email) - {id}
  {
  }

  /** The rank is written if the owner still has the row pinned, and otherwise nothing is. */
  lemma RankRowExactly(sessions: Sessions, email: Key, id: Key, rank: string)
    ensures var after := RankRow(sessions, email, id, rank);
            && (if id in sessions && sessions[id].owner == email && sessions[id].pinned then RowWritten(sessions, after, id, true, Some(rank))
                else after == sessions)
            && PinnedIds(after, email) == PinnedIds(sessions, email)
  {
  }

  lemma PinRowKeeps(sessions: Sessions, email: Key, id: Key, pinned: bool, rank: Option<string>)
    requires RanksOk(sessions) && (pinned ==> rank.Some? && IsValidRank(rank.value))
    ensures RanksOk(PinRow(sessions, email, id, pinned, rank)) <==>
              (pinned && Owned(sessions, email, id) ==> Unused(sessions, email, id, rank.value))
  {
    if Owned(sessions, email, id) {
      RerankExactly(sessions, id, sessions[id].(pinned := pinned, rank := rank));
    }
  }

  lemma RankRowKeeps(sessions: Sessions, email: Key, id: Key, rank: string)
    requires RanksOk(sessions) && IsValidRank(rank)
    ensures RanksOk(RankRow(sessions, email, id, rank)) <==>
              (id in PinnedIds(sessions, email) ==> Unused(sessions, email, id, rank))
  {
    if id in PinnedIds(sessions, email) { RerankExactly(sessions, id, sessions[id].(rank := Some(rank))); }
  }

  ghost predicate OnTop(table: Table, rank: Option<string>) {
    rank.Some? && forall b :: b in table ==> Less(rank.value, table[b])
  }

  /** Immediately before a known anchor, at the end without one, on top for an unknown one. */
  ghost predicate LandsWell(table: Table, moved: Key, before: Option<Key>, r: string) {
    if KnownAnchor(table, before) then LandsBefore(table, moved, before, r)
    else forall b :: b in table && b != moved ==> Less(r, table[b])
  }

  class PinStore {
    var sessions: Sessions

    constructor (initial: Sessions)
      ensures sessions == initial
    {
      sessions := initial;
    }

    /**
     Pinning puts the row above every one that was read, within the limit; unpinning clears its rank.
     `owned` is what the first query answered, `existing` the rows of `snapshot` the second one returned.
     If nothing was written in between, the ranks stay in order and the limit holds; whatever was, they
     stay in order exactly if no other pinned row of the owner holds the new rank by then.
     */
    method SetSessionPinned(email: Key, id: Key, pinned: bool, owned: bool, existing: seq<PinnedRow>, ghost snapshot: Sessions)
      returns (r: Result<Option<PinResult>, PinError>)
      requires IsQuery(existing, snapshot, email)
      modifies this
      ensures r == Ok(None) <==> !owned
      ensures r == Err(PinLimit) <==>
                owned && pinned && |PinnedIds(snapshot, email)| >= 20 && id !in PinnedIds(snapshot, email)
      ensures r.Err? || r.value.None? ==> sessions == old(sessions)
      ensures r.Err? ==> pinned
      ensures r.Err? && r.error != PinLimit && RanksOk(snapshot) ==>
                r.error == RankFailure(Exhausted) && existing != [] && existing[0].rank == Some(Repeat('0', 63) + "1")
      ensures r.Ok? && r.value.Some? ==>
                var rank := r.value.value.rank;
                && r.value.value == PinResult(id, pinned, rank)
                && (if id in old(sessions) && old(sessions)[id].owner == email then RowWritten(old(sessions), sessions, id, pinned, rank)
                    else sessions == old(sessions))
                && (id in PinnedIds(sessions, email) <==> pinned && id in old(sessions) && old(sessions)[id].owner == email)
                && (if pinned then rank.Some? && IsValidRank(rank.value) && (RanksOk(snapshot) ==> OnTop(TableOf(snapshot, email), rank))
                    else rank.None?)
                && (RanksOk(old(sessions)) ==>
                      (RanksOk(sessions) <==> (pinned && Owned(old(sessions), email, id) ==> Unused(old(sessions), email, id, rank.value))))
      ensures RanksOk(snapshot) && snapshot == old(sessions) && owned == Owned(snapshot, email, id) ==>
                RanksOk(sessions) && (|PinnedIds(snapshot, email)| <= 20 ==> |PinnedIds(sessions, email)| <= 20)
    {
      if !owned { return Ok(None); }
      var rank: Option<string> := None;
      if pinned {
        QueryListsPinned(existing, snapshot, email, id);
        if |existing| >= MAX_PINNED && Find(existing, id).None? { return Err(PinLimit); }
        var top := RankForNewPin(FirstRank(existing));
        if top.Err? {
          if RanksOk(snapshot) { NewPinFails(existing, snapshot, email); }
          return Err(RankFailure(top.error));
        }
        NewPinIsValid(existing, top.value);
        if RanksOk(snapshot) { PinLandsOnTop(existing, snapshot, email, top.value); }
        rank := Some(top.value);
      }
      if RanksOk(sessions) { PinRowKeeps(sessions, email, id, pinned, rank); }
      if Owned(sessions, email, id) {
        PinnedIdsAfter(sessions, email, id, sessions[id].(pinned := pinned, rank := rank));
      }
      PinRowExactly(sessions, email, id, pinned, rank);
      sessions := PinRow(sessions, email, id, pinned, rank);
      return Ok(Some(PinResult(id, pinned, rank)));
    }

    /**
     A reorder rewrites the moved row only, and among the rows that were read it lands immediately before
     its anchor; the ranks stay in order exactly if no other pinned row of the owner holds the rank by then.
     */
    method ReorderPinnedSession(email: Key, moved: Key, before: Option<Key>, ordered: seq<PinnedRow>, ghost snapshot: Sessions)
      returns (r: Result<Option<PinResult>, PinError>)
      requires IsQuery(ordered, snapshot, email)
      modifies this
      ensures r == Ok(None) <==> moved !in PinnedIds(snapshot, email)
      ensures r.Err? || r.value.None? ==> sessions == old(sessions)
      ensures r.Err? ==> r.error.RankFailure? && (RanksOk(snapshot) ==> r.error.cause == Exhausted)
      ensures r.Ok? && r.value.Some? ==>
                var rank := r.value.value.rank;
                && rank.Some? && r.value.value == PinResult(moved, true, rank)
                && (if moved in old(sessions) && old(sessions)[moved].owner == email && old(sessions)[moved].pinned
                    then RowWritten(old(sessions), sessions, moved, true, rank) else sessions == old(sessions))
                && IsValidRank(rank.value)
                && (RanksOk(snapshot) ==> LandsWell(TableOf(snapshot, email), moved, before, rank.value))
                && (RanksOk(old(sessions)) ==>
                      (RanksOk(sessions) <==> (moved in PinnedIds(old(sessions), email) ==> Unused(old(sessions), email, moved, rank.value))))
      ensures PinnedIds(sessions, email) == PinnedIds(old(sessions), email)
      ensures RanksOk(snapshot) && snapshot == old(sessions) ==> RanksOk(sessions)
    {
      QueryListsPinned(ordered, snapshot, email, moved);
      if Find(ordered, moved).None? { return Ok(None); }
      var rank := ComputeMoveRank(ordered, moved, before);
      if RanksOk(snapshot) { MoveIsSound(ordered, snapshot, email, moved, before); }
      if rank.Err? { return Err(RankFailure(rank.error)); }
      MoveIsValid(ordered, moved, before);
      if RanksOk(sessions) { RankRowKeeps(sessions, email, moved, rank.value); }
      if moved in PinnedIds(sessions, email) {
        PinnedIdsAfter(sessions, email, moved, sessions[moved].(rank := Some(rank.value)));
      }
      RankRowExactly(sessions, email, moved, rank.value);
      sessions := RankRow(sessions, email, moved, rank.value);
      return Ok(Some(PinResult(moved, true, Some(rank.value))));
    }
  }

  lemma MoveIsValid(ordered: seq<PinnedRow>, moved: Key, before: Option<Key>)
    requires ComputeMoveRank(ordered, moved, before).Ok?
    ensures IsValidRank(ComputeMoveRank(ordered, moved, before).value)
  {
    if before != Some(moved) || RankOf(ordered, moved).None? {
      var others := Without(ordered, moved);
      var gap := Gap(others, before);
      var lower := if gap > 0 then Sanitize(others[gap - 1].rank) else None;
      var upper := if gap < |others| then Sanitize(others[gap].rank) else None;
      assert ComputeMoveRank(ordered, moved, before) == Between(lower, upper);
      BetweenIsBetween(lower, upper);
    }
  }

  /** A new pin finds no rank only above the smallest rank of full length. */
  lemma NewPinFails(existing: seq<PinnedRow>, snapshot: Sessions, email: Key)
    requires RanksOk(snapshot) && IsQuery(existing, snapshot, email)
    ensures RankForNewPin(FirstRank(existing)).Err? ==>
              && RankForNewPin(FirstRank(existing)) == Err(Exhausted)
              && existing != [] && existing[0].rank == Some(Repeat('0', 63) + "1")
  {
    QueryIsDisplay(existing, snapshot, email);
    BetweenIsBetween(None, FirstRank(existing));
    if existing != [] { RankBeforeExhausts(existing[0].rank.value); }
  }

  lemma NewPinIsValid(existing: seq<PinnedRow>, r: string)
    requires RankForNewPin(FirstRank(existing)) == Ok(r)
    ensures IsValidRank(r)
  {
    BetweenIsBetween(None, Sanitize(FirstRank(existing)));
  }

  /** A new pin's rank sorts before every pinned row's. */
  lemma PinLandsOnTop(existing: seq<PinnedRow>, sessions: Sessions, email: Key, r: string)
    requires RanksOk(sessions) && IsQuery(existing, sessions, email)
    requires RankForNewPin(FirstRank(existing)) == Ok(r)
    ensures IsValidRank(r)
    ensures forall b :: b in TableOf(sessions, email) ==> Less(r, TableOf(sessions, email)[b]) && r != TableOf(sessions, email)[b]
  {
    var table := TableOf(sessions, email);
    QueryIsDisplay(existing, sessions, email);
    BetweenIsBetween(None, Sanitize(FirstRank(existing)));
    LessIrreflexive(r);
    forall b | b in table ensures Less(r, table[b]) {
      var i :| 0 <= i < |existing| && existing[i].id == b;
      if i > 0 { LessTransitive(r, existing[0].rank.value, table[b]); }
    }
  }

  lemma MoveIsSound(ordered: seq<PinnedRow>, sessions: Sessions, email: Key, moved: Key, before: Option<Key>)
    requires RanksOk(sessions) && IsQuery(ordered, sessions, email) && moved in PinnedIds(sessions, email)
    ensures var table := TableOf(sessions, email);
            match ComputeMoveRank(ordered, moved, before)
            case Err(e) => e == Exhausted
            case Ok(r) =>
              && IsValidRank(r)
              && (forall b :: b in table && b != moved ==> r != table[b])
              && LandsWell(table, moved, before, r)
  {
    QueryIsDisplay(ordered, sessions, email);
    var table := TableOf(sessions, email);
    SelfRank(ordered, table, moved);
    if before != Some(moved) { MoveFillsGap(ordered, moved, before); }
    if ComputeMoveRank(ordered, moved, before).Ok? {
      if KnownAnchor(table, before) {
        MoveLands(ordered, table, moved, before);
      } else {
        MoveToUnknownAnchor(ordered, table, moved, before.value);
      }
    }
  }

  // ---------------------------------------------------------------- writes computed from an old snapshot

  /** A rank computed from an old snapshot is still unused if every other row holds a rank some other row held then. */
  lemma StaleMoveIsSafe(ordered: seq<PinnedRow>, snapshot: Sessions, current: Sessions, email: Key, moved: Key, before: Option<Key>)
    requires RanksOk(snapshot) && IsQuery(ordered, snapshot, email) && moved in PinnedIds(snapshot, email)
    requires ComputeMoveRank(ordered, moved, before).Ok?
    requires forall b :: b in TableOf(current, email) && b != moved ==>
               exists c :: c in TableOf(snapshot, email) && c != moved && TableOf(snapshot, email)[c] == TableOf(current, email)[b]
    ensures Unused(current, email, moved, ComputeMoveRank(ordered, moved, before).value)
  {
    MoveIsSound(ordered, snapshot, email, moved, before);
  }

  lemma SecondPinRank(one: Sessions, email: Key, x: Key, y: Key, r: string)
    requires RanksOk(one) && Owned(one, email, x) && Owned(one, email, y) && IsValidRank(r)
    requires one[x].pinned && one[x].rank == Some(r)
    ensures RanksOk(PinRow(one, email, y, true, Some(r))) <==> x == y
  {
    PinRowKeeps(one, email, y, true, Some(r));
    assert x in TableOf(one, email) && TableOf(one, email)[x] == r;
    if x == y { assert PinRow(one, email, y, true, Some(r)) == one; }
  }

  lemma PinAdds(sessions: Sessions, email: Key, id: Key, r: string)
    requires Owned(sessions, email, id)
    ensures PinnedIds(PinRow(sessions, email, id, true, Some(r)), email) == PinnedIds(sessions, email) + {id}
  {
    PinnedIdsAfter(sessions, email, id, sessions[id].(pinned := true, rank := Some(r)));
  }

  lemma TwoMore(ids: set<Key>, x: Key, y: Key)
    ensures |ids + {x} + {y}| == |ids| + (if x in ids then 0 else 1) + (if y in ids || x == y then 0 else 1)
  {
    if x in ids { assert ids + {x} == ids; }
    if y in ids || x == y { assert ids + {x} + {y} == ids + {x}; }
  }

  /**
   Two new pins computed from one snapshot get the same rank: writing both keeps the ranks in order exactly
   if they pin the same row, and passes the limit exactly if one place was left and both rows were new to it.
   */
  lemma TwoPinsOneSnapshot(existing: seq<PinnedRow>, snapshot: Sessions, email: Key, x: Key, y: Key, r: string)
    requires RanksOk(snapshot) && IsQuery(existing, snapshot, email) && RankForNewPin(FirstRank(existing)) == Ok(r)
    requires Owned(snapshot, email, x) && Owned(snapshot, email, y) && |existing| < 20
    ensures var both := PinRow(PinRow(snapshot, email, x, true, Some(r)), email, y, true, Some(r));
            && (RanksOk(both) <==> x == y)
            && (|PinnedIds(both, email)| > 20 <==>
                  |existing| == 19 && x != y && x !in PinnedIds(snapshot, email) && y !in PinnedIds(snapshot, email))
  {
    var one := PinRow(snapshot, email, x, true, Some(r));
    PinLandsOnTop(existing, snapshot, email, r);
    PinRowKeeps(snapshot, email, x, true, Some(r));
    SecondPinRank(one, email, x, y, r);
    PinAdds(snapshot, email, x, r);
    PinAdds(one, email, y, r);
    TwoMore(PinnedIds(snapshot, email), x, y);
    QueryListsPinned(existing, snapshot, email, x);
  }
}
