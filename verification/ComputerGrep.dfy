/** The bounded text search over the workspace (src/computer-filesystem.ts). */
module ComputerGrep {
  import opened Collections
  import opened Wrappers
  import opened FileTree
  import opened ComputerUsage
  import opened ComputerWrite
  import opened Strings

  const MAX_MATCHES := 100
  const GREP_MAX_FILES := 128
  const GREP_MAX_DIRECTORIES := 64
  const GREP_MAX_BYTES := 256 * 1024
  const READ_MAX_BYTES := 32 * 1024
  const LINE_MAX_BYTES := 512
  const LIST_MAX_ENTRIES := 100
  const OUTPUT_MAX_BYTES := 32 * 1024
  const ELLIPSIS: string := "\U{2026}"

  // ---------------------------------------------------------------- lines and matches

  function Lines(s: string): (lines: seq<string>) { Split(s, '\n') }

  predicate OccursAt(text: string, needle: string, i: nat) {
    i + |needle| <= |text| && text[i..i + |needle|] == needle
  }

  predicate Contains(text: string, needle: string) { exists i :: 0 <= i <= |text| && OccursAt(text, needle, i) }

  datatype Query = Query(text: string, ignoreCase: bool, upper: string -> string) {
    predicate Hits(line: string) {
      if ignoreCase then Contains(upper(line), upper(text)) else Contains(line, text)
    }
  }

  /** The needle stands somewhere in the line. */
  ghost predicate Occurs(line: string, needle: string) { exists before, after :: line == before + needle + after }

  /** What a query asks of a line: the very text, or the text in capitals in the line in capitals if case is ignored. */
  ghost predicate Asked(line: string, q: Query) {
    if q.ignoreCase then Occurs(q.upper(line), q.upper(q.text)) else Occurs(line, q.text)
  }

  lemma ContainsExactly(text: string, needle: string)
    ensures Contains(text, needle) <==> Occurs(text, needle)
  {
    if Contains(text, needle) {
      var i :| 0 <= i <= |text| && OccursAt(text, needle, i);
      assert text == text[..i] + needle + text[i + |needle|..];
    }
    if before, after :| text == before + needle + after { assert OccursAt(text, needle, |before|); }
  }

  /** The search's test of a line is what the query asks. */
  lemma HitsExactly(line: string, q: Query)
    ensures q.Hits(line) <==> Asked(line, q)
  {
    ContainsExactly(line, q.text);
    ContainsExactly(q.upper(line), q.upper(q.text));
  }

  datatype Match = Match(path: Path, line: nat, text: string)

  /** The longest prefix of at most `room` bytes. */
  function Fitting(s: string, room: nat): (r: string)
    ensures r <= s && ByteLength(r) <= room
    ensures r == s || ByteLength(r) + CharBytes(s[|r|]) > room
  {
    if s == "" || CharBytes(s[0]) > room then "" else [s[0]] + Fitting(s[1..], room - CharBytes(s[0]))
  }

  function Clip(s: string, maxBytes: nat): (r: string)
    requires maxBytes >= 3
    ensures ByteLength(s) <= maxBytes ==> r == s
    ensures ByteLength(s) > maxBytes ==> r == Fitting(s, maxBytes - 3) + ELLIPSIS
  {
    if ByteLength(s) <= maxBytes then s else Fitting(s, maxBytes - 3) + ELLIPSIS
  }

  /** Cutting a long line down, one whole character at a time, and marking the cut. */
  method TruncateUtf8(value: string, maxBytes: nat) returns (r: string)
    requires maxBytes >= 3
    ensures r == Clip(value, maxBytes) && ByteLength(r) <= maxBytes
  {
    if ByteLength(value) <= maxBytes { return value; }
    var available := maxBytes - 3;
    var result := "";
    var k := 0;
    while k < |value| && ByteLength(result + [value[k]]) <= available
      invariant k <= |value| && result == value[..k] && ByteLength(result) <= available
    {
      result := result + [value[k]];
      k := k + 1;
    }
    if k < |value| { assert value[..k + 1] == result + [value[k]]; }
    FittingIs(value, available, k);
    BytesAdd(result, ELLIPSIS);
    return result + ELLIPSIS;
  }

  lemma {:induction false} FittingIs(s: string, room: nat, k: nat)
    requires k <= |s| && ByteLength(s[..k]) <= room
    requires k < |s| ==> ByteLength(s[..k + 1]) > room
    ensures Fitting(s, room) == s[..k]
  {
    if k > 0 {
      TakeBytes(s, k);
      if k < |s| { TakeBytes(s, k + 1); }
      FittingIs(s[1..], room - CharBytes(s[0]), k - 1);
      assert [s[0]] + s[1..][..k - 1] == s[..k];
    }
  }

  lemma TakeBytes(s: string, k: nat)
    requires 0 < k <= |s|
    ensures ByteLength(s[..k]) == CharBytes(s[0]) + ByteLength(s[1..][..k - 1])
  {
    assert s[..k][1..] == s[1..][..k - 1];
  }

  function TextOf(tree: Tree, p: Path): string { if IsFile(tree, p) then tree[p].text else "" }

  /** `m` is a matching line of the file it names, quoted up to 512 bytes. */
  ghost predicate IsHit(m: Match, lines: seq<string>, q: Query) {
    1 <= m.line <= |lines| && Asked(lines[m.line - 1], q) && m.text == Clip(lines[m.line - 1], 512)
  }

  ghost predicate TrueMatch(tree: Tree, m: Match, q: Query) { IsHit(m, Lines(TextOf(tree, m.path)), q) }

  /** The matches of one file, from the given line on, in order. */
  function FileMatches(path: Path, lines: seq<string>, from: nat, q: Query): seq<Match>
    requires from <= |lines|
    decreases |lines| - from
  {
    if from == |lines| then []
    else if q.Hits(lines[from]) then
      [Match(path, from + 1, Clip(lines[from], 512))] + FileMatches(path, lines, from + 1, q)
    else FileMatches(path, lines, from + 1, q)
  }

  /** The matches of several files, file by file. */
  function AllMatches(tree: Tree, files: seq<Path>, q: Query): seq<Match> {
    if files == [] then []
    else
      var last := files[|files| - 1];
      AllMatches(tree, files[..|files| - 1], q) + FileMatches(last, Lines(TextOf(tree, last)), 0, q)
  }

  ghost predicate NoRepeats(ms: seq<Match>) {
    forall i, j :: 0 <= i < j < |ms| ==> ms[i].path != ms[j].path || ms[i].line != ms[j].line
  }

  lemma {:induction false} FileMatchesAre(path: Path, lines: seq<string>, from: nat, q: Query)
    requires from <= |lines|
    ensures forall m :: m in FileMatches(path, lines, from, q) <==> m.path == path && from < m.line && IsHit(m, lines, q)
    ensures NoRepeats(FileMatches(path, lines, from, q))
    decreases |lines| - from
  {
    if from < |lines| {
      HitsExactly(lines[from], q);
      FileMatchesAre(path, lines, from + 1, q);
      var rest, all := FileMatches(path, lines, from + 1, q), FileMatches(path, lines, from, q);
      forall m ensures m in all <==> m.path == path && from < m.line && IsHit(m, lines, q) {
        if m.path == path && m.line == from + 1 && IsHit(m, lines, q) {
          assert m == Match(path, from + 1, Clip(lines[from], 512));
        }
      }
      if q.Hits(lines[from]) {
        forall j | 0 < j < |all| ensures all[j].line != all[0].line { assert all[j] in rest; }
        forall i, j | 0 < i < j < |all| ensures all[i].line != all[j].line || all[i].path != all[j].path {
          assert all[i] == rest[i - 1] && all[j] == rest[j - 1];
        }
      }
    }
  }

  lemma Joined(a: seq<Match>, b: seq<Match>)
    requires NoRepeats(a) && NoRepeats(b)
    requires forall m, n :: m in a && n in b ==> m.path != n.path
    ensures NoRepeats(a + b)
  {
    forall i, j | 0 <= i < j < |a + b| ensures (a + b)[i].path != (a + b)[j].path || (a + b)[i].line != (a + b)[j].line {
      if i < |a| <= j { assert a[i] in a && b[j - |a|] in b; }
    }
  }

  /** The naive search: exactly the matching lines of the files given, each once. */
  lemma {:induction false} AllMatchesAre(tree: Tree, files: seq<Path>, q: Query)
    ensures forall m :: m in AllMatches(tree, files, q) <==> m.path in files && TrueMatch(tree, m, q)
    ensures Distinct(files) ==> NoRepeats(AllMatches(tree, files, q))
  {
    if files != [] {
      var init, last := files[..|files| - 1], files[|files| - 1];
      AllMatchesAre(tree, init, q);
      FileMatchesAre(last, Lines(TextOf(tree, last)), 0, q);
      assert files == init + [last];
      if Distinct(files) { Joined(AllMatches(tree, init, q), FileMatches(last, Lines(TextOf(tree, last)), 0, q)); }
    }
  }

  lemma OneMoreFile(tree: Tree, files: seq<Path>, f: Path, q: Query)
    ensures AllMatches(tree, files + [f], q) == AllMatches(tree, files, q) + FileMatches(f, Lines(TextOf(tree, f)), 0, q)
    ensures SeqBytes(tree, files + [f]) == SeqBytes(tree, files) + Size(tree, f)
  {
    assert (files + [f])[..|files|] == files;
  }

  function SeqBytes(tree: Tree, files: seq<Path>): nat {
    if files == [] then 0 else SeqBytes(tree, files[..|files| - 1]) + Size(tree, files[|files| - 1])
  }

  function Capped(ms: seq<Match>): seq<Match> { if |ms| <= 100 then ms else ms[..100] }

  /** Append the matching lines of one file, stopping as soon as there are a hundred. */
  method MatchingLines(content: string, q: Query, path: Path, matches: seq<Match>) returns (r: seq<Match>)
    requires |matches| < 100
    ensures r == Capped(matches + FileMatches(path, Lines(content), 0, q))
  {
    r := matches;
    var lines := Lines(content);
    ghost var all := matches + FileMatches(path, lines, 0, q);
    for index := 0 to |lines|
      invariant |r| < 100 && all == r + FileMatches(path, lines, index, q)
    {
      if q.Hits(lines[index]) {
        var text := TruncateUtf8(lines[index], LINE_MAX_BYTES);
        Shift(all, r, Match(path, index + 1, text), FileMatches(path, lines, index + 1, q));
        r := r + [Match(path, index + 1, text)];
        if |r| >= MAX_MATCHES { return; }
      }
    }
  }

  lemma Shift(all: seq<Match>, r: seq<Match>, m: Match, rest: seq<Match>)
    requires all == r + ([m] + rest)
    ensures all == (r + [m]) + rest && all[..|r| + 1] == r + [m]
  {
  }

  // ---------------------------------------------------------------- output bounds

  function SumOf<T>(items: seq<T>, bytes: T -> nat): nat {
    if items == [] then 0 else SumOf(items[..|items| - 1], bytes) + bytes(items[|items| - 1])
  }

  /** At most a hundred items and 32 KiB, cut at the first one that does not fit. */
  method BoundedItems<T>(items: seq<T>, bytes: T -> nat) returns (kept: seq<T>, truncated: bool)
    ensures kept <= items && |kept| <= 100 && SumOf(kept, bytes) <= 32 * 1024
    ensures truncated <==> |kept| < |items|
    ensures truncated ==> |kept| == 100 || SumOf(kept, bytes) + bytes(items[|kept|]) > 32 * 1024
  {
    kept := [];
    var total := 0;
    for k := 0 to |items|
      invariant kept == items[..k] && |kept| <= 100 && total == SumOf(kept, bytes) <= 32 * 1024
    {
      if |kept| >= LIST_MAX_ENTRIES || total + bytes(items[k]) > OUTPUT_MAX_BYTES { return kept, true; }
      assert items[..k + 1][..k] == items[..k];
      kept, total := kept + [items[k]], total + bytes(items[k]);
    }
    return kept, false;
  }

  // ---------------------------------------------------------------- the search

  /** The queues of the search: what is still to be read, what has been, and whether anything was passed over. */
  ghost predicate Searching(tree: Tree, root: Path, w: Walk, files: seq<Path>, scanned: seq<Path>, truncated: bool) {
    && Sound(tree, root, w)
    && Distinct(scanned + files)
    && (forall p :: p in scanned + files ==> p in w.seen)
    && (!truncated ==> forall p :: p in w.seen ==> p in scanned + files)
  }

  lemma SearchStarts(tree: Tree, root: Path)
    requires root in tree
    ensures var w := Start(tree, root);
            && Whole(tree, root, w, {})
            && Searching(tree, root, w, if IsFile(tree, root) then [root] else [], [], false)
  {
    StartKeeps(tree, root);
  }

  lemma FileTaken(tree: Tree, root: Path, w: Walk, files: seq<Path>, scanned: seq<Path>, truncated: bool)
    requires Searching(tree, root, w, files, scanned, truncated) && files != []
    ensures Searching(tree, root, w, files[1..], scanned + [files[0]], truncated)
    ensures Searching(tree, root, w, files[1..], scanned, true)
    ensures files[0] in FilesUnder(tree, root)
  {
    assert (scanned + [files[0]]) + files[1..] == scanned + files;
    assert files[0] in scanned + files;
    Dropped(scanned, files);
  }

  lemma Dropped(scanned: seq<Path>, files: seq<Path>)
    requires files != [] && Distinct(scanned + files)
    ensures Distinct(scanned + files[1..])
    ensures forall p :: p in scanned + files[1..] ==> p in scanned + files
  {
    var all, less := scanned + files, scanned + files[1..];
    forall i, j | 0 <= i < j < |less| ensures less[i] != less[j] {
      var k, l := if i < |scanned| then i else i + 1, if j < |scanned| then j else j + 1;
      assert less[i] == all[k] && less[j] == all[l];
    }
  }

  lemma FileAdded(tree: Tree, root: Path, w: Walk, files: seq<Path>, scanned: seq<Path>, truncated: bool, p: Path)
    requires Searching(tree, root, w, files, scanned, truncated) && Sound(tree, root, Visit(tree, w, p)) && !Touched(w, p)
    ensures Searching(tree, root, Visit(tree, w, p), if IsFile(tree, p) then files + [p] else files, scanned, truncated)
  {
    var all := scanned + files;
    if IsFile(tree, p) {
      assert scanned + (files + [p]) == all + [p];
      assert p !in all;
    }
  }

  /** The listing of one directory, entry by entry: directories and files go to their queues. */
  method QueueEntries(tree: Tree, root: Path, entries: seq<Path>, directories: seq<Path>, files: seq<Path>,
                      ghost w: Walk, ghost scanned: seq<Path>, ghost truncated: bool, ghost all: set<Path>)
    returns (r: Result<(seq<Path>, seq<Path>), FsError>, ghost t: Walk)
    requires Searching(tree, root, w, files, scanned, truncated) && directories == w.queue
    requires Distinct(entries) && (forall p :: p in entries ==> p in all)
    requires forall p :: p in all ==> p in tree && p != [] && root <= p && Parent(p) in w.done && !Touched(w, p)
    requires !truncated ==> Whole(tree, root, w, all) && forall p :: p in all ==> p in entries
    ensures r.Ok? ==>
              && t.done == w.done && r.value.0 == t.queue
              && Searching(tree, root, t, r.value.1, scanned, truncated)
              && (!truncated ==> Whole(tree, root, t, {}))
              && directories <= r.value.0 && files <= r.value.1
    ensures r.Err? ==> exists p :: p in all && !Fits(p)
  {
    t := w;
    var dirs, regular := directories, files;
    ghost var pending := all;
    for k := 0 to |entries|
      invariant t.done == w.done && dirs == t.queue && directories <= dirs && files <= regular
      invariant Searching(tree, root, t, regular, scanned, truncated)
      invariant !truncated ==> Whole(tree, root, t, pending)
      invariant forall j :: k <= j < |entries| ==> !Touched(t, entries[j])
      invariant forall p :: p in pending ==> p in all && p !in entries[..k]
    {
      var child := entries[k];
      assert child in entries;
      if !Fits(child) { return Err(PathTooLong), t; }
      VisitKeeps(tree, root, t, child, pending);
      FileAdded(tree, root, t, regular, scanned, truncated, child);
      t, pending := Visit(tree, t, child), pending - {child};
      match tree[child]
      case Directory => dirs := dirs + [child];
      case File(_) => regular := regular + [child];
      case _ =>
    }
    if !truncated { assert pending == {} by { assert entries[..|entries|] == entries; } }
    return Ok((dirs, regular)), t;
  }

  datatype Scan = Scan(matches: seq<Match>, bytes: nat)

  /** What has been read so far: its matches, and its size. */
  ghost predicate Scanned(tree: Tree, scanned: seq<Path>, q: Query, s: Scan) {
    s.matches == AllMatches(tree, scanned, q) && s.bytes == SeqBytes(tree, scanned) <= 256 * 1024
  }

  datatype FileOutcome = Read | TooBig | Stop | ReadAndStop

  /**
   One file off the queue: skipped if too big, not read if it would pass the total.  The tree does not
   change, so the text read has the size just looked up and the source's second size check never fires.
   */
  method ScanFile(tree: Tree, file: Path, q: Query, s: Scan, ghost scanned: seq<Path>) returns (r: Scan, outcome: FileOutcome)
    requires WellFormed(tree) && IsFile(tree, file) && Scanned(tree, scanned, q, s) && |s.matches| < 100
    ensures outcome.TooBig? || outcome.Stop? ==> r == s
    ensures outcome.TooBig? ==> Size(tree, file) > 32 * 1024
    ensures outcome.Stop? ==> SeqBytes(tree, scanned + [file]) > 256 * 1024
    ensures outcome.ReadAndStop? ==> |AllMatches(tree, scanned + [file], q)| >= 100
    ensures outcome.Read? ==> Scanned(tree, scanned + [file], q, r) && |r.matches| < 100
    ensures outcome.ReadAndStop? ==>
              && SeqBytes(tree, scanned + [file]) <= 256 * 1024 && r.matches <= AllMatches(tree, scanned + [file], q)
              && |r.matches| == 100
    ensures outcome.Read? || outcome.ReadAndStop? ==> Size(tree, file) <= 32 * 1024
  {
    EntriesAreReachable(tree, file);
    var stat := CheckPath(tree, file, false);
    assert stat == Ok(Some(tree[file]));
    var text := tree[file].text;
    var size := ByteLength(text);
    if size > READ_MAX_BYTES { return s, TooBig; }
    OneMoreFile(tree, scanned, file, q);
    if s.bytes + size > GREP_MAX_BYTES { return s, Stop; }
    var matches := MatchingLines(text, q, file, s.matches);
    if |matches| >= MAX_MATCHES { return Scan(matches, s.bytes + size), ReadAndStop; }
    return Scan(matches, s.bytes + size), Read;
  }

  lemma FoundEverything(tree: Tree, root: Path, w: Walk, scanned: seq<Path>)
    requires WellFormed(tree) && Searching(tree, root, w, [], scanned, false) && Whole(tree, root, w, {}) && w.queue == []
    ensures forall p :: p in scanned <==> p in FilesUnder(tree, root)
  {
    WalkIsComplete(tree, root, w);
    assert scanned + [] == scanned;
  }

  /** At most 128 files, none over 32 KiB, and 256 KiB of them all. */
  ghost predicate Bounded(tree: Tree, read: seq<Path>) {
    |read| <= 128 && (forall p :: p in read ==> Size(tree, p) <= 32 * 1024) && SeqBytes(tree, read) <= 256 * 1024
  }

  /** What the search found: `read` lists the files whose text was read, in order. */
  ghost predicate Found(tree: Tree, root: Path, q: Query, matches: seq<Match>, read: seq<Path>, truncated: bool) {
    && Distinct(read) && (forall p :: p in read ==> p in FilesUnder(tree, root))
    && Bounded(tree, read)
    && matches <= AllMatches(tree, read, q) && |matches| <= 100
    && (!truncated ==> matches == AllMatches(tree, read, q) && forall p :: p in FilesUnder(tree, root) ==> p in read)
  }

  lemma ReadIsProper(tree: Tree, root: Path, w: Walk, files: seq<Path>, scanned: seq<Path>, truncated: bool)
    requires Searching(tree, root, w, files, scanned, truncated)
    ensures Distinct(scanned) && forall p :: p in scanned ==> p in FilesUnder(tree, root)
  {
    forall i, j | 0 <= i < j < |scanned| ensures scanned[i] != scanned[j] {
      assert (scanned + files)[i] == scanned[i] && (scanned + files)[j] == scanned[j];
    }
    forall p | p in scanned ensures p in FilesUnder(tree, root) { assert p in scanned + files; }
  }

  lemma FoundSoFar(tree: Tree, root: Path, w: Walk, files: seq<Path>, scanned: seq<Path>, truncated: bool, q: Query, matches: seq<Match>)
    requires Searching(tree, root, w, files, scanned, truncated)
    requires Bounded(tree, scanned) && matches <= AllMatches(tree, scanned, q) && |matches| <= 100
    ensures Found(tree, root, q, matches, scanned, true)
  {
    ReadIsProper(tree, root, w, files, scanned, truncated);
  }

  // ---------------------------------------------------------------- searches that fit the limits

  ghost function HitCount(tree: Tree, files: set<Path>, q: Query): nat {
    if files == {} then 0
    else var p :| p in files; |FileMatches(p, Lines(TextOf(tree, p)), 0, q)| + HitCount(tree, files - {p}, q)
  }

  lemma {:induction false} HitCountAdds(tree: Tree, files: set<Path>, q: Query, p: Path)
    requires p in files
    ensures HitCount(tree, files, q) == |FileMatches(p, Lines(TextOf(tree, p)), 0, q)| + HitCount(tree, files - {p}, q)
  {
    var r :| r in files && HitCount(tree, files, q) == |FileMatches(r, Lines(TextOf(tree, r)), 0, q)| + HitCount(tree, files - {r}, q);
    if p != r {
      HitCountAdds(tree, files - {r}, q, p);
      HitCountAdds(tree, files - {p}, q, r);
      assert files - {r} - {p} == files - {p} - {r};
    }
  }

  lemma {:induction false} HitCountMonotone(tree: Tree, some: set<Path>, all: set<Path>, q: Query)
    requires some <= all
    ensures HitCount(tree, some, q) <= HitCount(tree, all, q)
  {
    if some != {} {
      var p :| p in some;
      HitCountAdds(tree, some, q, p);
      HitCountAdds(tree, all, q, p);
      HitCountMonotone(tree, some - {p}, all - {p}, q);
    }
  }

  lemma LastLeaves(s: seq<Path>)
    requires Distinct(s) && s != []
    ensures var init, last := s[..|s| - 1], s[|s| - 1];
            Distinct(init) && last in Elements(s) && Elements(s) - {last} == Elements(init)
  {
    var init, last := s[..|s| - 1], s[|s| - 1];
    forall p | p in Elements(init) ensures p != last && p in Elements(s) {
      var i :| 0 <= i < |init| && init[i] == p;
      assert s[i] == p;
    }
    forall p | p in Elements(s) && p != last ensures p in Elements(init) {
      var i :| 0 <= i < |s| && s[i] == p;
      assert init[i] == p;
    }
  }

  /** Sums over a list without repetition are sums over its set. */
  lemma {:induction false} ListSums(tree: Tree, s: seq<Path>, q: Query)
    requires Distinct(s)
    ensures SeqBytes(tree, s) == TotalSize(tree, Elements(s))
    ensures |AllMatches(tree, s, q)| == HitCount(tree, Elements(s), q)
    ensures |Elements(s)| == |s|
  {
    if s == [] {
      assert Elements(s) == {};
    } else {
      var init, last := s[..|s| - 1], s[|s| - 1];
      LastLeaves(s);
      ListSums(tree, init, q);
      TotalSizeAdds(tree, Elements(s), last);
      HitCountAdds(tree, Elements(s), q, last);
    }
  }

  /** Everything below the root is within the limits of the search. */
  ghost predicate Modest(tree: Tree, root: Path, q: Query) {
    && |FilesUnder(tree, root)| <= 128 && |DirsUnder(tree, root)| <= 64
    && (forall p :: p in tree && root <= p ==> (tree[p].File? || tree[p].Directory?) && (p != root ==> Fits(p)))
    && (forall p :: p in FilesUnder(tree, root) ==> Size(tree, p) <= 32 * 1024)
    && TotalSize(tree, FilesUnder(tree, root)) <= 256 * 1024
    && HitCount(tree, FilesUnder(tree, root), q) < 100
  }

  lemma ModestFiles(tree: Tree, root: Path, q: Query, w: Walk, files: seq<Path>, scanned: seq<Path>)
    requires Modest(tree, root, q) && Searching(tree, root, w, files, scanned, false)
    ensures |scanned| + |files| == |w.seen| <= 128
  {
    ListSums(tree, scanned + files, q);
    assert Elements(scanned + files) == w.seen;
    SubsetCount(w.seen, FilesUnder(tree, root));
  }

  lemma ModestRead(tree: Tree, root: Path, q: Query, read: seq<Path>)
    requires Modest(tree, root, q) && Distinct(read) && forall p :: p in read ==> p in FilesUnder(tree, root)
    ensures SeqBytes(tree, read) <= 256 * 1024 && |AllMatches(tree, read, q)| < 100
  {
    ListSums(tree, read, q);
    TotalSizeMonotone(tree, Elements(read), FilesUnder(tree, root));
    HitCountMonotone(tree, Elements(read), FilesUnder(tree, root), q);
  }

  /** The directories read and queued, the files found and the children about to be listed are all different entries. */
  lemma ModestEntries(tree: Tree, root: Path, q: Query, w: Walk, children: set<Path>)
    requires Modest(tree, root, q) && Sound(tree, root, w)
    requires forall p :: p in children ==> p in tree && root <= p && !Touched(w, p)
    ensures |w.done| <= 64
    ensures |w.done| + |w.queue| + |w.seen| + |children| <= 128 + 64
  {
    var dirs, files, queue := DirsUnder(tree, root), FilesUnder(tree, root), Elements(w.queue);
    ListSums(tree, w.queue, q);
    SubsetCount(w.done, dirs);
    var all := w.done + queue + w.seen + children;
    Disjoint4(w.done, queue, w.seen, children);
    assert all <= dirs + files;
    SubsetCount(all, dirs + files);
    assert dirs !! files;
  }

  lemma Disjoint4(a: set<Path>, b: set<Path>, c: set<Path>, d: set<Path>)
    requires a !! b && (a + b) !! c && (a + b + c) !! d
    ensures |a + b + c + d| == |a| + |b| + |c| + |d|
  {
  }

  lemma NextFileIsModest(tree: Tree, root: Path, q: Query, w: Walk, files: seq<Path>, read: seq<Path>)
    requires Modest(tree, root, q) && Searching(tree, root, w, files, read, false) && files != []
    ensures |read| + 1 <= 128 && Size(tree, files[0]) <= 32 * 1024
    ensures SeqBytes(tree, read + [files[0]]) <= 256 * 1024 && |AllMatches(tree, read + [files[0]], q)| < 100
  {
    ModestFiles(tree, root, q, w, files, read);
    FileTaken(tree, root, w, files, read, false);
    ReadIsProper(tree, root, w, files[1..], read + [files[0]], false);
    ModestRead(tree, root, q, read + [files[0]]);
  }

  /** The variables of the loop. */
  datatype Progress = Progress(directories: seq<Path>, files: seq<Path>, scan: Scan, fileCount: nat, directoryCount: nat, truncated: bool)

  /** The loop invariant; a smooth search, within the limits and in time, has cut nothing off. */
  ghost predicate Going(tree: Tree, root: Path, q: Query, w: Walk, read: seq<Path>, p: Progress, smooth: bool) {
    && p.directories == w.queue && Searching(tree, root, w, p.files, read, p.truncated)
    && (!p.truncated ==> Whole(tree, root, w, {}))
    && Scanned(tree, read, q, p.scan) && |p.scan.matches| < 100
    && Bounded(tree, read) && |read| <= p.fileCount <= 128
    && (smooth ==> Modest(tree, root, q) && !p.truncated && p.fileCount == |read| && p.directoryCount == |w.done|)
  }

  method TakeFile(tree: Tree, root: Path, q: Query, p: Progress, ghost w: Walk, ghost read: seq<Path>, ghost smooth: bool)
    returns (next: Progress, stop: bool, ghost longer: seq<Path>)
    requires WellFormed(tree) && Going(tree, root, q, w, read, p, smooth) && p.files != []
    ensures !stop ==> Going(tree, root, q, w, longer, next, smooth) && |next.files| < |p.files|
    ensures stop ==> !smooth && Found(tree, root, q, next.scan.matches, longer, true)
    ensures next.files == p.files[1..] && next.fileCount == p.fileCount + 1
    ensures next.directories == p.directories && next.directoryCount == p.directoryCount
  {
    longer := read;
    var file := p.files[0];
    FoundSoFar(tree, root, w, p.files, read, p.truncated, q, p.scan.matches);
    FileTaken(tree, root, w, p.files, read, p.truncated);
    next := p.(files := p.files[1..], fileCount := p.fileCount + 1);
    if smooth { NextFileIsModest(tree, root, q, w, p.files, read); }
    if next.fileCount > GREP_MAX_FILES { return next, true, longer; }
    var scan, outcome := ScanFile(tree, file, q, p.scan, read);
    next := next.(scan := scan);
    match outcome
    case TooBig => next, stop := next.(truncated := true), false;
    case Stop => stop := true;
    case Read => longer, stop := read + [file], false;
    case ReadAndStop =>
      longer, stop := read + [file], true;
      FoundSoFar(tree, root, w, next.files, longer, p.truncated, q, scan.matches);
  }

  method TakeDirectory(tree: Tree, root: Path, q: Query, p: Progress, ghost w: Walk, ghost read: seq<Path>, ghost smooth: bool)
    returns (r: Result<Option<Progress>, FsError>, ghost t: Walk)
    requires Going(tree, root, q, w, read, p, smooth) && p.directories != []
    ensures if r.Ok? && r.value.Some? then Going(tree, root, q, t, read, r.value.value, smooth) else !smooth
    ensures r.Ok? && r.value.Some? ==>
              var next := r.value.value;
              && next.scan == p.scan && next.fileCount == p.fileCount
              && next.directoryCount == p.directoryCount + 1 <= 64
              && p.directories[1..] <= next.directories && p.files <= next.files
    ensures r.Ok? && r.value.Some? ==> t.done == w.done + {p.directories[0]}
    ensures r.Ok? && r.value.Some? ==> p.directories[0] in DirsUnder(tree, root) - w.done
  {
    var directory := p.directories[0];
    EnterKeeps(tree, root, w);
    assert directory in w.queue;
    if smooth {
      ModestFiles(tree, root, q, w, p.files, read);
      ModestEntries(tree, root, q, Enter(w), Children(tree, directory));
    }
    t := Enter(w);
    var directories, directoryCount := p.directories[1..], p.directoryCount + 1;
    if directoryCount > GREP_MAX_DIRECTORIES { return Ok(None), t; }
    var remaining := GREP_MAX_FILES + GREP_MAX_DIRECTORIES + 1 - p.fileCount - directoryCount - |directories| - |p.files|;
    if remaining <= 0 { return Ok(None), t; }
    var entries := Readdir(tree, directory, remaining + 1);
    var truncated := p.truncated || |entries| > remaining;
    var queued;
    queued, t := QueueEntries(tree, root, entries[..Min(remaining, |entries|)], directories, p.files, t, read, truncated,
                              Children(tree, directory));
    if queued.Err? { return Err(queued.error), t; }
    return Ok(Some(Progress(queued.value.0, queued.value.1, p.scan, p.fileCount, directoryCount, truncated))), t;
  }

  /**
   The loop: files first, then the next directory, until the queues are empty or a limit is hit; `late`
   tells whether the deadline has passed at each turn.  A search within the limits and in time is complete.
   */
  method Search(tree: Tree, root: Path, q: Query, late: nat -> bool)
    returns (r: Result<(seq<Match>, bool), FsError>, ghost read: seq<Path>)
    requires WellFormed(tree) && root in tree
    ensures if r.Ok? then Found(tree, root, q, r.value.0, read, r.value.1) else Found(tree, root, q, [], read, true)
    ensures Modest(tree, root, q) && (forall turn :: !late(turn)) ==> r.Ok? && !r.value.1
  {
    var p := Progress(if tree[root].Directory? then [root] else [], if tree[root].File? then [root] else [], Scan([], 0), 0, 0, false);
    var turn := 0;
    read := [];
    ghost var w := Start(tree, root);
    ghost var smooth := Modest(tree, root, q) && forall turn :: !late(turn);
    SearchStarts(tree, root);
    while p.directories != [] || p.files != []
      invariant Going(tree, root, q, w, read, p, smooth)
      decreases DirsUnder(tree, root) - w.done, |p.files|
    {
      FoundSoFar(tree, root, w, p.files, read, p.truncated, q, p.scan.matches);
      if late(turn) { return Ok((p.scan.matches, true)), read; }
      turn := turn + 1;
      if p.files != [] {
        var stop;
        p, stop, read := TakeFile(tree, root, q, p, w, read, smooth);
        if stop { return Ok((p.scan.matches, true)), read; }
      } else {
        var next;
        next, w := TakeDirectory(tree, root, q, p, w, read, smooth);
        if next.Err? { return Err(next.error), read; }
        if next.value.None? { return Ok((p.scan.matches, true)), read; }
        p := next.value.value;
      }
    }
    FoundSoFar(tree, root, w, p.files, read, p.truncated, q, p.scan.matches);
    if !p.truncated { FoundEverything(tree, root, w, read); }
    return Ok((p.scan.matches, p.truncated)), read;
  }

  /** True matching lines of files below the root, each at most once, and unless truncated all of them. */
  ghost predicate TrueAnswer(tree: Tree, root: Path, q: Query, items: seq<Match>, truncated: bool) {
    && (forall m :: m in items ==> m.path in FilesUnder(tree, root) && TrueMatch(tree, m, q))
    && NoRepeats(items)
    && (!truncated ==> forall m: Match :: m.path in FilesUnder(tree, root) && TrueMatch(tree, m, q) ==> m in items)
  }

  lemma FoundIsTrue(tree: Tree, root: Path, q: Query, matches: seq<Match>, read: seq<Path>, truncated: bool, items: seq<Match>)
    requires Found(tree, root, q, matches, read, truncated) && items <= matches
    ensures TrueAnswer(tree, root, q, items, truncated || |items| < |matches|)
  {
    AllMatchesAre(tree, read, q);
    assert items <= AllMatches(tree, read, q);
  }

  /** A true matching line that is not among the items, and would take them over the size of an answer. */
  ghost predicate LeftOut(tree: Tree, root: Path, q: Query, items: seq<Match>, jsonBytes: Match -> nat, m: Match) {
    && m.path in FilesUnder(tree, root) && TrueMatch(tree, m, q) && m !in items
    && SumOf(items, jsonBytes) + jsonBytes(m) > 32 * 1024
  }

  lemma NextIsLeftOut(tree: Tree, root: Path, q: Query, matches: seq<Match>, read: seq<Path>, k: nat, jsonBytes: Match -> nat)
    requires Found(tree, root, q, matches, read, false) && k < |matches|
    requires SumOf(matches[..k], jsonBytes) + jsonBytes(matches[k]) > 32 * 1024
    ensures LeftOut(tree, root, q, matches[..k], jsonBytes, matches[k])
  {
    FoundIsTrue(tree, root, q, matches, read, false, matches);
    assert matches[k] in matches;
  }

  lemma ModestAnswer(tree: Tree, root: Path, q: Query, matches: seq<Match>, read: seq<Path>, truncated: bool)
    requires Modest(tree, root, q) && Found(tree, root, q, matches, read, truncated)
    ensures |matches| < 100
  {
    ModestRead(tree, root, q, read);
  }

  ghost predicate SomeLeftOut(tree: Tree, root: Path, q: Query, items: seq<Match>, jsonBytes: Match -> nat) {
    exists m :: LeftOut(tree, root, q, items, jsonBytes, m)
  }

  /** The matches found, cut to the bounds of an answer. */
  lemma CutAnswer(tree: Tree, root: Path, q: Query, matches: seq<Match>, read: seq<Path>, truncated: bool, k: nat, jsonBytes: Match -> nat)
    requires Found(tree, root, q, matches, read, truncated) && k <= |matches|
    requires k < |matches| ==> k == 100 || SumOf(matches[..k], jsonBytes) + jsonBytes(matches[k]) > 32 * 1024
    ensures TrueAnswer(tree, root, q, matches[..k], truncated || k < |matches|)
    ensures Modest(tree, root, q) && !truncated && k < |matches| ==> SomeLeftOut(tree, root, q, matches[..k], jsonBytes)
  {
    FoundIsTrue(tree, root, q, matches, read, truncated, matches[..k]);
    if Modest(tree, root, q) && !truncated && k < |matches| {
      ModestAnswer(tree, root, q, matches, read, truncated);
      NextIsLeftOut(tree, root, q, matches, read, k, jsonBytes);
    }
  }

  /**
   The search answers with true matching lines only, each at most once, reads at most 256 KiB, and
   unless it says it was truncated it has every matching line of every regular file below the root.
   A search within the limits and in time says so only when a matching line is left out that no longer fits.
   */
  method Grep(tree: Tree, path: Path, q: Query, jsonBytes: Match -> nat, late: nat -> bool)
    returns (r: Result<(seq<Match>, bool), FsError>, ghost read: seq<Path>)
    requires WellFormed(tree) && IsDir(tree, HOME) && HOME <= path
    ensures r.Ok? ==>
              var (items, truncated) := r.value;
              && TrueAnswer(tree, path, q, items, truncated)
              && |items| <= 100 && SumOf(items, jsonBytes) <= 32 * 1024
    ensures Distinct(read) && (forall p :: p in read ==> p in FilesUnder(tree, path)) && Bounded(tree, read)
    ensures path !in tree || !(tree[path].Directory? || tree[path].File?) ==> r.Err?
    ensures (IsDir(tree, path) || IsFile(tree, path)) && Modest(tree, path, q) && (forall turn :: !late(turn)) ==>
              r.Ok? && (r.value.1 ==> SomeLeftOut(tree, path, q, r.value.0, jsonBytes))
  {
    read := [];
    if path in tree { EntriesAreReachable(tree, path); }
    var root := CheckPath(tree, path, false);
    if root.Err? { return Err(root.error), read; }
    if root.value.None? || !(root.value.value.Directory? || root.value.value.File?) { return Err(NotRegular), read; }
    var found;
    found, read := Search(tree, path, q, late);
    if found.Err? { return Err(found.error), read; }
    var items, cut := BoundedItems(found.value.0, jsonBytes);
    assert items == found.value.0[..|items|];
    CutAnswer(tree, path, q, found.value.0, read, found.value.1, |items|, jsonBytes);
    return Ok((items, found.value.1 || cut)), read;
  }
}
