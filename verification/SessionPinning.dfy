/**
 Moving one pinned conversation (src/session-pinning.ts): the rank of a move, where it lands,
 and why moves computed from one snapshot commute.
 */
module SessionPinning {
  import opened Wrappers
  import opened FractionalIndex

  datatype PinnedRow = PinnedRow(id: Key, rank: Option<string>)

  function Sanitize(rank: Option<string>): Option<string> {
    if rank.Some? && IsValidRank(rank.value) then rank else None
  }

  function Without(rows: seq<PinnedRow>, id: Key): seq<PinnedRow> {
    if rows == [] then []
    else (if rows[0].id != id then [rows[0]] else []) + Without(rows[1..], id)
  }

  /** The first position of `id`, as `findIndex` gives it; `None` stands for -1. */
  function Find(rows: seq<PinnedRow>, id: Key): (at: Option<nat>)
    ensures at.Some? ==> at.value < |rows| && rows[at.value].id == id
    ensures at.None? ==> forall i :: 0 <= i < |rows| ==> rows[i].id != id
  {
    if rows == [] then None
    else if rows[0].id == id then Some(0)
    else
      var rest := Find(rows[1..], id);
      assert forall i :: 1 <= i < |rows| ==> rows[i] == rows[1..][i - 1];
      if rest.Some? then Some(rest.value + 1) else None
  }

  function RankOf(rows: seq<PinnedRow>, id: Key): Option<string> {
    var at := Find(rows, id);
    if at.Some? then Sanitize(rows[at.value].rank) else None
  }

  function FirstRank(rows: seq<PinnedRow>): Option<string> { if rows == [] then None else rows[0].rank }

  function ComputeMoveRank(ordered: seq<PinnedRow>, moved: Key, before: Option<Key>): Result<string, RankError> {
    if before == Some(moved) && RankOf(ordered, moved).Some? then Ok(RankOf(ordered, moved).value)
    else
      var others := Without(ordered, moved);
      if before.None? then
        Between(Sanitize(if others == [] then None else others[|others| - 1].rank), None)
      else
        var at := Find(others, before.value);
        if at.None? then RankBefore(Sanitize(FirstRank(others)))
        else
          var lower := if at.value > 0 then Sanitize(others[at.value - 1].rank) else None;
          Between(lower, Sanitize(others[at.value].rank))
  }

  function RankForNewPin(top: Option<string>): Result<string, RankError> { RankBefore(Sanitize(top)) }

  // ---------------------------------------------------------------- tables and their display order

  /** The pinned rows of one owner: each conversation's rank. */
  type Table = map<Key, string>

  ghost predicate Ascending(rows: seq<PinnedRow>) {
    && (forall i :: 0 <= i < |rows| ==> rows[i].rank.Some? && IsValidRank(rows[i].rank.value))
    && (forall i, j :: 0 <= i < j < |rows| ==> Less(rows[i].rank.value, rows[j].rank.value))
  }

  /** `order` lists every row of the table once, by ascending rank. */
  ghost predicate IsDisplay(order: seq<PinnedRow>, table: Table) {
    && Ascending(order)
    && (forall i :: 0 <= i < |order| ==> order[i].id in table && order[i].rank == Some(table[order[i].id]))
    && (forall id :: id in table ==> exists i :: 0 <= i < |order| && order[i].id == id)
  }

  function Ids(order: seq<PinnedRow>): seq<Key> { seq(|order|, i requires 0 <= i < |order| => order[i].id) }

  lemma {:induction false} WithoutKeeps(rows: seq<PinnedRow>, id: Key)
    ensures forall row :: row in Without(rows, id) <==> row in rows && row.id != id
    ensures Ascending(rows) ==> Ascending(Without(rows, id))
  {
    if rows != [] {
      WithoutKeeps(rows[1..], id);
      assert forall row :: row in rows <==> row == rows[0] || row in rows[1..];
      if Ascending(rows) {
        var rest := Without(rows[1..], id);
        assert Ascending(rows[1..]);
        forall i | 0 <= i < |rest| ensures Less(rows[0].rank.value, rest[i].rank.value) {
          assert rest[i] in rest && rest[i] in rows[1..];
          var j :| 0 <= j < |rows[1..]| && rows[1..][j] == rest[i];
          assert Less(rows[0].rank.value, rows[j + 1].rank.value);
        }
      }
    }
  }

  lemma OrderOf(rows: seq<PinnedRow>, i: nat, j: nat)
    requires Ascending(rows) && i < |rows| && j < |rows|
    ensures Less(rows[i].rank.value, rows[j].rank.value) <==> i < j
    ensures rows[i].id == rows[j].id && rows[i].rank == rows[j].rank ==> i == j
  {
    LessIrreflexive(rows[i].rank.value);
    if j < i {
      if Less(rows[i].rank.value, rows[j].rank.value) {
        LessTransitive(rows[i].rank.value, rows[j].rank.value, rows[i].rank.value);
      }
    }
  }

  /** Every other row of a display is found in `Without`, with its rank. */
  lemma OtherRow(order: seq<PinnedRow>, table: Table, moved: Key, b: Key) returns (j: nat)
    requires IsDisplay(order, table) && b in table && b != moved
    ensures var others := Without(order, moved);
            j < |others| && others[j] == PinnedRow(b, Some(table[b]))
  {
    WithoutKeeps(order, moved);
    var i :| 0 <= i < |order| && order[i].id == b;
    assert order[i] in Without(order, moved);
    j :| 0 <= j < |Without(order, moved)| && Without(order, moved)[j] == order[i];
  }

  /** The bounds a move picks are neighbours among the other rows. */
  ghost predicate InGap(others: seq<PinnedRow>, gap: nat, r: string)
    requires gap <= |others|
  {
    && (gap > 0 ==> Below(others[gap - 1].rank, r))
    && (gap < |others| ==> Above(r, others[gap].rank))
  }

  lemma GapSplits(others: seq<PinnedRow>, gap: nat, r: string, j: nat)
    requires Ascending(others) && gap <= |others| && InGap(others, gap, r) && j < |others|
    ensures r != others[j].rank.value
    ensures Less(r, others[j].rank.value) <==> gap <= j
  {
    var other := others[j].rank.value;
    if gap <= j {
      if gap < j { LessTransitive(r, others[gap].rank.value, other); }
      LessIrreflexive(r);
    } else {
      if j < gap - 1 { LessTransitive(other, others[gap - 1].rank.value, r); }
      LessIrreflexive(r);
      if Less(r, other) { LessTransitive(r, other, r); }
    }
  }

  /** Where among the other rows a move puts the row: before its anchor, at the end, or on top. */
  function Gap(others: seq<PinnedRow>, before: Option<Key>): (gap: nat)
    ensures gap <= |others|
  {
    if before.None? then |others|
    else
      var at := Find(others, before.value);
      if at.Some? then at.value else 0
  }

  /** The rank at the gap between two rows, or at either end. */
  function RankAtGap(rows: seq<PinnedRow>, gap: nat): Result<string, RankError>
    requires gap <= |rows|
  {
    Between(if gap > 0 then rows[gap - 1].rank else None, if gap < |rows| then rows[gap].rank else None)
  }

  lemma MoveIsAtGap(order: seq<PinnedRow>, moved: Key, before: Option<Key>)
    requires Ascending(Without(order, moved)) && (before == Some(moved) ==> RankOf(order, moved).None?)
    ensures var others := Without(order, moved); ComputeMoveRank(order, moved, before) == RankAtGap(others, Gap(others, before))
  {
  }

  lemma GapRank(others: seq<PinnedRow>, gap: nat)
    requires Ascending(others) && gap <= |others|
    ensures match RankAtGap(others, gap)
            case Ok(r) => IsValidRank(r) && InGap(others, gap, r)
            case Err(e) => e == Exhausted
  {
    BetweenIsBetween(if gap > 0 then others[gap - 1].rank else None, if gap < |others| then others[gap].rank else None);
  }

  lemma MoveFillsGap(order: seq<PinnedRow>, moved: Key, before: Option<Key>)
    requires Ascending(order)
    requires before == Some(moved) ==> RankOf(order, moved).None?
    ensures var others := Without(order, moved);
            && Ascending(others)
            && match ComputeMoveRank(order, moved, before)
               case Ok(r) => IsValidRank(r) && InGap(others, Gap(others, before), r)
               case Err(e) => e == Exhausted
  {
    var others := Without(order, moved);
    WithoutKeeps(order, moved);
    MoveIsAtGap(order, moved, before);
    GapRank(others, Gap(others, before));
  }

  // ---------------------------------------------------------------- where a move lands

  predicate KnownAnchor(table: Table, before: Option<Key>) { before.Some? ==> before.value in table }

  /** `r` sorts before exactly the rows from the anchor on, and collides with no other row. */
  ghost predicate LandsBefore(table: Table, moved: Key, before: Option<Key>, r: string)
    requires KnownAnchor(table, before)
  {
    forall b :: b in table && b != moved ==>
      && r != table[b]
      && (Less(r, table[b]) <==> before.Some? && !Less(table[b], table[before.value]))
  }

  lemma SelfRank(order: seq<PinnedRow>, table: Table, id: Key)
    requires IsDisplay(order, table) && id in table
    ensures RankOf(order, id) == Some(table[id]) && IsValidRank(table[id])
  {
    var i :| 0 <= i < |order| && order[i].id == id;
  }

  lemma DistinctRanks(order: seq<PinnedRow>, table: Table, a: Key, b: Key)
    requires IsDisplay(order, table) && a in table && b in table && a != b
    ensures table[a] != table[b]
  {
    var i :| 0 <= i < |order| && order[i].id == a;
    var j :| 0 <= j < |order| && order[j].id == b;
    OrderOf(order, i, j);
    OrderOf(order, j, i);
    LessIrreflexive(table[a]);
  }

  lemma NotLessIsGreater(a: string, b: string)
    requires a != b
    ensures Less(a, b) <==> !Less(b, a)
  {
    LessTotal(a, b);
    LessIrreflexive(a);
    if Less(a, b) && Less(b, a) { LessTransitive(a, b, a); }
  }

  /** A move lands immediately before its anchor, or at the end when it has none. */
  lemma MoveLands(order: seq<PinnedRow>, table: Table, moved: Key, before: Option<Key>)
    requires IsDisplay(order, table) && moved in table && KnownAnchor(table, before)
    requires ComputeMoveRank(order, moved, before).Ok?
    ensures var r := ComputeMoveRank(order, moved, before).value;
            IsValidRank(r) && LandsBefore(table, moved, before, r)
  {
    var r := ComputeMoveRank(order, moved, before).value;
    SelfRank(order, table, moved);
    if before != Some(moved) { MoveFillsGap(order, moved, before); }
    forall b | b in table && b != moved
      ensures r != table[b]
      ensures Less(r, table[b]) <==> before.Some? && !Less(table[b], table[before.value])
    {
      if before == Some(moved) {
        DistinctRanks(order, table, moved, b);
        NotLessIsGreater(table[moved], table[b]);
      } else {
        OtherRowSide(order, table, moved, before, r, b);
      }
    }
  }

  lemma OtherRowSide(order: seq<PinnedRow>, table: Table, moved: Key, before: Option<Key>, r: string, b: Key)
    requires IsDisplay(order, table) && KnownAnchor(table, before) && before != Some(moved)
    requires b in table && b != moved
    requires var others := Without(order, moved); Ascending(others) && InGap(others, Gap(others, before), r)
    ensures r != table[b]
    ensures Less(r, table[b]) <==> before.Some? && !Less(table[b], table[before.value])
  {
    var others := Without(order, moved);
    var j := OtherRow(order, table, moved, b);
    GapSplits(others, Gap(others, before), r, j);
    if before.Some? {
      var k := OtherRow(order, table, moved, before.value);
      var at := Find(others, before.value).value;
      assert others[at] in others;
      WithoutKeeps(order, moved);
      assert others[at] in order;
      assert others[at] == others[k];
      OrderOf(others, at, k);
      OrderOf(others, j, at);
    }
  }

  /** A move to an unknown anchor lands on top. */
  lemma MoveToUnknownAnchor(order: seq<PinnedRow>, table: Table, moved: Key, before: Key)
    requires IsDisplay(order, table) && moved in table && before !in table
    requires ComputeMoveRank(order, moved, Some(before)).Ok?
    ensures var r := ComputeMoveRank(order, moved, Some(before)).value;
            IsValidRank(r) && forall b :: b in table && b != moved ==> r != table[b] && Less(r, table[b])
  {
    var r, others := ComputeMoveRank(order, moved, Some(before)).value, Without(order, moved);
    WithoutKeeps(order, moved);
    MoveFillsGap(order, moved, Some(before));
    forall i | 0 <= i < |others| ensures others[i].id != before {
      assert others[i] in others && others[i] in order;
    }
    assert Gap(others, Some(before)) == 0;
    forall b | b in table && b != moved ensures r != table[b] && Less(r, table[b]) {
      var j := OtherRow(order, table, moved, b);
      GapSplits(others, 0, r, j);
    }
  }

  /** Moves never fail while the ranks in play stay below the full length. */
  lemma MoveSucceeds(order: seq<PinnedRow>, moved: Key, before: Option<Key>)
    requires Ascending(order)
    requires forall row :: row in order ==> |row.rank.value| < MAX_RANK_LENGTH
    ensures ComputeMoveRank(order, moved, before).Ok?
  {
    if before != Some(moved) || RankOf(order, moved).None? {
      var others := Without(order, moved);
      WithoutKeeps(order, moved);
      MoveIsAtGap(order, moved, before);
      ShortGapHasRoom(others, Gap(others, before));
    }
  }

  lemma ShortGapHasRoom(others: seq<PinnedRow>, gap: nat)
    requires Ascending(others) && gap <= |others|
    requires forall row :: row in others ==> |row.rank.value| < MAX_RANK_LENGTH
    ensures RankAtGap(others, gap).Ok?
  {
    if gap > 0 { assert others[gap - 1] in others; }
    if gap < |others| { assert others[gap] in others; }
    BetweenIsBetween(if gap > 0 then others[gap - 1].rank else None, if gap < |others| then others[gap].rank else None);
  }

  // ---------------------------------------------------------------- independent moves commute

  /** Two tables that rank their rows in the same order. */
  ghost predicate SameOrder(t: Table, u: Table) {
    && t.Keys == u.Keys
    && forall a, b :: a in t && b in t ==> (Less(t[a], t[b]) <==> Less(u[a], u[b]))
  }

  /** The first `k` rows agree, counted one by one. */
  predicate Agree(o: seq<PinnedRow>, p: seq<PinnedRow>, k: nat)
    requires k <= |o| && k <= |p|
  {
    k == 0 || (Agree(o, p, k - 1) && o[k - 1].id == p[k - 1].id)
  }

  lemma {:induction false} AgreeAt(o: seq<PinnedRow>, p: seq<PinnedRow>, k: nat, i: nat)
    requires i < k <= |o| && k <= |p| && Agree(o, p, k)
    ensures o[i].id == p[i].id
  {
    if i < k - 1 { AgreeAt(o, p, k - 1, i); }
  }

  /** The two displays agree up to `k`, and neither ends there. */
  predicate BothGoOn(o: seq<PinnedRow>, p: seq<PinnedRow>, k: nat) { k < |o| && k < |p| && Agree(o, p, k) }

  /** A row of `o` found later in `p` sorts, in `t`, after the row `p` shows in its place. */
  lemma LaterSortsAfter(o: seq<PinnedRow>, t: Table, p: seq<PinnedRow>, u: Table, k: nat)
    requires IsDisplay(o, t) && IsDisplay(p, u) && SameOrder(t, u)
    ensures BothGoOn(o, p, k) && o[k].id != p[k].id ==> Less(t[p[k].id], t[o[k].id])
  {
    if BothGoOn(o, p, k) {
      var a := o[k].id;
      var i: nat :| i < |p| && p[i].id == a;
      if i < k {
        AgreeAt(o, p, k, i);
        OrderOf(o, i, k);
      }
      OrderOf(p, k, i);
      assert p[k].id in u && p[i].id in u;
    }
  }

  lemma {:induction false} AgreeSymmetric(o: seq<PinnedRow>, p: seq<PinnedRow>, k: nat)
    requires k <= |o| && k <= |p| && Agree(o, p, k)
    ensures Agree(p, o, k)
  {
    if k > 0 { AgreeSymmetric(o, p, k - 1); }
  }

  lemma NextRowAgrees(o: seq<PinnedRow>, t: Table, p: seq<PinnedRow>, u: Table, k: nat)
    requires IsDisplay(o, t) && IsDisplay(p, u) && SameOrder(t, u)
    ensures BothGoOn(o, p, k) ==> o[k].id == p[k].id
  {
    if BothGoOn(o, p, k) && o[k].id != p[k].id {
      var a, b := o[k].id, p[k].id;
      AgreeSymmetric(o, p, k);
      LaterSortsAfter(o, t, p, u, k);
      LaterSortsAfter(p, u, o, t, k);
      LessTransitive(t[a], t[b], t[a]);
      LessIrreflexive(t[a]);
    }
  }

  lemma SameOrderAgrees(o: seq<PinnedRow>, t: Table, p: seq<PinnedRow>, u: Table, k: nat)
    requires IsDisplay(o, t) && IsDisplay(p, u) && SameOrder(t, u) && k <= |o| && k <= |p|
    ensures Agree(o, p, k)
  {
    for n := 0 to k
      invariant Agree(o, p, n)
    {
      NextRowAgrees(o, t, p, u, n);
    }
  }

  lemma ShorterDisplay(o: seq<PinnedRow>, t: Table, p: seq<PinnedRow>, u: Table)
    requires IsDisplay(o, t) && IsDisplay(p, u) && SameOrder(t, u)
    ensures |o| <= |p|
  {
    if |p| < |o| {
      SameOrderAgrees(o, t, p, u, |p|);
      var a := o[|p|].id;
      var i :| 0 <= i < |p| && p[i].id == a;
      AgreeAt(o, p, |p|, i);
      OrderOf(o, i, |p|);
    }
  }

  lemma AgreeIds(o: seq<PinnedRow>, p: seq<PinnedRow>)
    requires |o| == |p| && Agree(o, p, |o|)
    ensures Ids(o) == Ids(p)
  {
    forall i | 0 <= i < |o| ensures Ids(o)[i] == Ids(p)[i] { AgreeAt(o, p, |o|, i); }
  }

  /** The display order of a table is determined by how its ranks compare. */
  lemma DisplayIsUnique(o: seq<PinnedRow>, t: Table, p: seq<PinnedRow>, u: Table)
    requires IsDisplay(o, t) && IsDisplay(p, u) && SameOrder(t, u)
    ensures Ids(o) == Ids(p)
  {
    ShorterDisplay(o, t, p, u);
    ShorterDisplay(p, u, o, t);
    SameOrderAgrees(o, t, p, u, |o|);
    AgreeIds(o, p);
  }

  /** Two moves that can be made independently. */
  ghost predicate Independent(table: Table, x: Key, p: Option<Key>, y: Key, q: Option<Key>) {
    && x in table && y in table && x != y
    && KnownAnchor(table, p) && KnownAnchor(table, q)
    && p != q && p != Some(y) && q != Some(x)
  }

  /** How the two moved rows compare depends on the anchors only. */
  lemma MovedRowsCompare(order: seq<PinnedRow>, table: Table, x: Key, p: Option<Key>, rx: string,
                         y: Key, q: Option<Key>, ry: string)
    requires IsDisplay(order, table) && Independent(table, x, p, y, q)
    requires LandsBefore(table, x, p, rx) && LandsBefore(table, y, q, ry)
    requires p == Some(x) ==> rx == table[x]
    requires q == Some(y) ==> ry == table[y]
    ensures rx != ry
    ensures Less(ry, rx) <==> q.Some? && !Less(rx, table[q.value])
  {
    LessIrreflexive(rx);
    LessIrreflexive(ry);
    if p.Some? && q.Some? { DistinctRanks(order, table, p.value, q.value); NotLessIsGreater(table[p.value], table[q.value]); }
    if p.Some? { LessIrreflexive(table[p.value]); NotLessIsGreater(ry, table[p.value]); }
    if q.Some? { LessIrreflexive(table[q.value]); NotLessIsGreater(rx, table[q.value]); }
    if q.Some? && !Less(rx, table[q.value]) {
      if q != Some(y) { LessTransitive(ry, table[q.value], rx); }
    } else {
      if p != Some(x) { LessTransitive(rx, table[p.value], ry); }
      NotLessIsGreater(rx, ry);
    }
  }

  /**
   Two independent moves computed from one snapshot get distinct ranks, and writing both gives
   the display order of making them one after the other.  Swapping the arguments gives the
   other sequential order.
   */
  lemma IndependentMovesCommute(order: seq<PinnedRow>, table: Table,
                                x: Key, p: Option<Key>, y: Key, q: Option<Key>,
                                after: seq<PinnedRow>, both: seq<PinnedRow>, chained: seq<PinnedRow>)
    requires IsDisplay(order, table) && Independent(table, x, p, y, q)
    requires ComputeMoveRank(order, x, p).Ok? && ComputeMoveRank(order, y, q).Ok?
    requires IsDisplay(after, table[x := ComputeMoveRank(order, x, p).value])
    requires ComputeMoveRank(after, y, q).Ok?
    requires IsDisplay(both, table[x := ComputeMoveRank(order, x, p).value][y := ComputeMoveRank(order, y, q).value])
    requires IsDisplay(chained, table[x := ComputeMoveRank(order, x, p).value][y := ComputeMoveRank(after, y, q).value])
    ensures ComputeMoveRank(order, x, p).value != ComputeMoveRank(order, y, q).value
    ensures Ids(both) == Ids(chained)
  {
    var rx, ry, late := ComputeMoveRank(order, x, p).value, ComputeMoveRank(order, y, q).value, ComputeMoveRank(after, y, q).value;
    var moved := table[x := rx];
    MoveLands(order, table, x, p);
    MoveLands(order, table, y, q);
    MoveLands(after, moved, y, q);
    SelfRank(order, table, x);
    SelfRank(order, table, y);
    SelfRank(after, moved, y);
    MovedRowsCompare(order, table, x, p, rx, y, q, ry);
    SameComparisons(table, x, p, rx, y, q, ry, late);
    DisplayIsUnique(both, moved[y := ry], chained, moved[y := late]);
  }

  lemma SameComparisons(table: Table, x: Key, p: Option<Key>, rx: string,
                        y: Key, q: Option<Key>, ry: string, late: string)
    requires Independent(table, x, p, y, q)
    requires LandsBefore(table, y, q, ry) && LandsBefore(table[x := rx], y, q, late)
    requires q == Some(y) ==> ry == late
    requires rx != ry && (Less(ry, rx) <==> q.Some? && !Less(rx, table[q.value]))
    ensures SameOrder(table[x := rx][y := ry], table[x := rx][y := late])
  {
    var t, u := table[x := rx][y := ry], table[x := rx][y := late];
    forall a, b | a in t && b in t ensures Less(t[a], t[b]) <==> Less(u[a], u[b]) {
      LessIrreflexive(ry);
      LessIrreflexive(late);
      if a == y && b != y {
        assert Less(ry, t[b]) <==> q.Some? && !Less(t[b], table[q.value]);
      } else if b == y && a != y {
        NotLessIsGreater(ry, t[a]);
        NotLessIsGreater(late, u[a]);
      }
    }
  }

  lemma {:induction false} WithoutConcat(a: seq<PinnedRow>, b: seq<PinnedRow>, id: Key)
    ensures Without(a + b, id) == Without(a, id) + Without(b, id)
  {
    if a == [] {
      assert a + b == b;
    } else {
      assert (a + b)[1..] == a[1..] + b;
      WithoutConcat(a[1..], b, id);
    }
  }

  lemma LastSurvives(rows: seq<PinnedRow>, moved: Key)
    requires rows != [] && rows[|rows| - 1].id != moved
    ensures var others := Without(rows, moved); others != [] && others[|others| - 1] == rows[|rows| - 1]
  {
    var last := rows[|rows| - 1];
    assert rows == rows[..|rows| - 1] + [last];
    WithoutConcat(rows[..|rows| - 1], [last], moved);
  }

  /** The row is not next to the gap before the `i`-th row. */
  predicate AwayFrom(order: seq<PinnedRow>, i: nat, id: Key)
    requires i <= |order|
  {
    (i > 0 ==> id != order[i - 1].id) && (i < |order| ==> id != order[i].id)
  }

  /** Removing a row that is not next to a gap leaves the gap between the same two rows, or at the same end. */
  lemma GapSurvives(order: seq<PinnedRow>, moved: Key, i: nat) returns (k: nat)
    requires i <= |order| && AwayFrom(order, i, moved)
    ensures var others := Without(order, moved);
            && k <= |others| && (k > 0 <==> i > 0) && (k < |others| <==> i < |order|)
            && (i > 0 ==> others[k - 1] == order[i - 1]) && (i < |order| ==> others[k] == order[i])
  {
    var head, tail := order[..i], order[i..];
    assert order == head + tail;
    WithoutConcat(head, tail, moved);
    if i > 0 { LastSurvives(head, moved); }
    k := |Without(head, moved)|;
  }

  function AnchorAt(order: seq<PinnedRow>, i: nat): Option<Key> { if i < |order| then Some(order[i].id) else None }

  lemma MovesToGap(order: seq<PinnedRow>, moved: Key, i: nat)
    requires Ascending(order) && i <= |order|
    requires i < |order| ==> forall j :: 0 <= j < |order| && j != i ==> order[j].id != order[i].id
    requires AwayFrom(order, i, moved)
    ensures ComputeMoveRank(order, moved, AnchorAt(order, i)) == RankAtGap(order, i)
  {
    var others := Without(order, moved);
    var k := GapSurvives(order, moved, i);
    WithoutKeeps(order, moved);
    if i < |order| {
      var at := Find(others, order[i].id).value;
      assert others[at] in others && others[at] in order;
      OrderOf(others, at, k);
    }
    MoveIsAtGap(order, moved, AnchorAt(order, i));
  }

  /**
   Sharing an anchor is what breaks it: two moves to one gap, between two rows or at either end, pick the
   very same rank whenever neither row is next to it.
   */
  lemma SameAnchorCollides(order: seq<PinnedRow>, x: Key, y: Key, i: nat)
    requires Ascending(order) && i <= |order|
    requires i < |order| ==> forall j :: 0 <= j < |order| && j != i ==> order[j].id != order[i].id
    requires AwayFrom(order, i, x) && AwayFrom(order, i, y)
    ensures ComputeMoveRank(order, x, AnchorAt(order, i)) == ComputeMoveRank(order, y, AnchorAt(order, i)) == RankAtGap(order, i)
  {
    MovesToGap(order, x, i);
    MovesToGap(order, y, i);
  }
}
