/** Quota accounting: the bounded breadth-first count of the owner's tree (src/computer-filesystem.ts). */
module ComputerUsage {
  import opened Collections
  import opened Wrappers
  import opened FileTree

  const MAX_FILES := 512
  const MAX_DIRECTORIES := 256
  const MAX_STORAGE_BYTES := 4 * 1024 * 1024
  const MAX_PATH_BYTES := 1024

  const HOME: Path := [Key("home"), Key("user")]

  datatype FsError =
    | DirectoryQuota | FileQuota | StorageQuota | InvalidSize | PathTooLong | ContentTooLong
    | NotFound | ThroughSymlink | NotADirectory | NotRegular | OperationFailed | RollbackFailed

  datatype Usage = Usage(directories: nat, files: nat, bytes: nat)

  ghost function ExactUsage(tree: Tree): Usage {
    Usage(|DirsUnder(tree, HOME)|, |FilesUnder(tree, HOME)|, TotalSize(tree, FilesUnder(tree, HOME)))
  }

  ghost predicate WithinQuota(u: Usage) {
    u.directories <= 256 && u.files <= 512 && u.bytes <= 4 * 1024 * 1024
  }

  /** The length in bytes of the path written out, each name preceded by a slash. */
  function PathBytes(p: Path): nat {
    if p == [] then 0 else PathBytes(Parent(p)) + 1 + ByteLength(p[|p| - 1].text)
  }

  predicate Fits(p: Path) { PathBytes(p) <= MAX_PATH_BYTES }

  ghost predicate PathsFit(tree: Tree) { forall p :: p in tree && HOME <= p && p != HOME ==> Fits(p) }

  /** A tree holding nothing but files and directories. */
  ghost predicate Plain(tree: Tree) {
    forall p :: p in tree && HOME <= p ==> tree[p].File? || tree[p].Directory?
  }

  /** What makes the count of a plain tree succeed. */
  ghost predicate Countable(tree: Tree) { WithinQuota(ExactUsage(tree)) && PathsFit(tree) }

  /** A walk has counted at most what is there, and unread children of a plain tree come on top. */
  lemma WalkCounts(tree: Tree, w: Walk, extra: set<Path>)
    requires Sound(tree, HOME, w)
    ensures |w.done| <= ExactUsage(tree).directories && |w.seen| <= ExactUsage(tree).files
    ensures TotalSize(tree, w.seen) <= ExactUsage(tree).bytes
    ensures Plain(tree) && (forall p :: p in extra ==> p in tree && HOME <= p && !Touched(w, p)) ==>
              |w.done| + |w.seen| + |extra| <= ExactUsage(tree).directories + ExactUsage(tree).files
  {
    var dirs, files := DirsUnder(tree, HOME), FilesUnder(tree, HOME);
    SubsetCount(w.done, dirs);
    SubsetCount(w.seen, files);
    TotalSizeMonotone(tree, w.seen, files);
    if Plain(tree) && (forall p :: p in extra ==> p in tree && HOME <= p && !Touched(w, p)) {
      var all := w.done + w.seen + extra;
      assert |all| == |w.done| + |w.seen| + |extra| by {
        assert w.done !! w.seen && (w.done + w.seen) !! extra;
      }
      assert all <= dirs + files;
      SubsetCount(all, dirs + files);
      assert |dirs + files| == |dirs| + |files|;
    }
  }

  /** Every path met so far fits: the children of the directories read, except those pending. */
  ghost predicate FitSoFar(tree: Tree, w: Walk, pending: set<Path>) {
    forall p :: p in tree && p != [] && Parent(p) in w.done && p !in pending ==> Fits(p)
  }

  /** Mid-directory: the children still to be looked at have not been touched. */
  ghost predicate Reading(tree: Tree, w: Walk, d: Path, pending: set<Path>) {
    && Sound(tree, HOME, w) && Whole(tree, HOME, w, pending) && FitSoFar(tree, w, pending)
    && d in w.done
    && pending <= Children(tree, d)
    && forall p :: p in pending ==> HOME <= p && p != HOME && !Touched(w, p)
  }

  lemma ReadingStarts(tree: Tree, w: Walk)
    requires Sound(tree, HOME, w) && Whole(tree, HOME, w, {}) && FitSoFar(tree, w, {}) && w.queue != []
    ensures Reading(tree, Enter(w), w.queue[0], Children(tree, w.queue[0]))
    ensures |Enter(w).done| == |w.done| + 1 && w.queue[0] in DirsUnder(tree, HOME) - w.done
  {
    EnterKeeps(tree, HOME, w);
    assert w.queue[0] in w.queue;
  }

  lemma ReadingGoesOn(tree: Tree, w: Walk, d: Path, pending: set<Path>, path: Path)
    requires Reading(tree, w, d, pending) && path in pending && Fits(path)
    ensures Reading(tree, Visit(tree, w, path), d, pending - {path})
  {
    VisitKeeps(tree, HOME, w, path, pending);
  }

  /** The running totals of a walk. */
  ghost predicate Counts(tree: Tree, w: Walk, directories: seq<Path>, files: nat, bytes: nat) {
    && directories == w.queue && files == |w.seen| <= 512
    && bytes == TotalSize(tree, w.seen) <= 4 * 1024 * 1024
  }

  /** One entry of a directory listing, counted or passed over. */
  method CountEntry(tree: Tree, path: Path, directories: seq<Path>, files: nat, bytes: nat, ghost w: Walk)
    returns (r: Result<(seq<Path>, nat, nat), FsError>)
    requires path in tree && HOME <= path && path != HOME && !Touched(w, path)
    requires Counts(tree, w, directories, files, bytes) && Sound(tree, HOME, Visit(tree, w, path))
    ensures r.Ok? ==> Fits(path) && Counts(tree, Visit(tree, w, path), r.value.0, r.value.1, r.value.2)
    ensures r.Err? ==> !Countable(tree)
  {
    if !Fits(path) { return Err(PathTooLong); }
    ghost var t := Visit(tree, w, path);
    WalkCounts(tree, t, {});
    match tree[path]
    case Directory => return Ok((directories + [path], files, bytes));
    case File(text) =>
      TotalSizeAdds(tree, t.seen, path);
      assert t.seen - {path} == w.seen;
      if ByteLength(text) > MAX_STORAGE_BYTES { return Err(InvalidSize); }
      if files + 1 > MAX_FILES { return Err(FileQuota); }
      if bytes + ByteLength(text) > MAX_STORAGE_BYTES { return Err(StorageQuota); }
      return Ok((directories, files + 1, bytes + ByteLength(text)));
    case _ => return Ok((directories, files, bytes));
  }

  /** The loop over one directory's entries. */
  method CountEntries(tree: Tree, d: Path, entries: seq<Path>, directories: seq<Path>, files: nat, bytes: nat, ghost w: Walk)
    returns (r: Result<(seq<Path>, nat, nat), FsError>, ghost t: Walk)
    requires Reading(tree, w, d, Children(tree, d)) && Counts(tree, w, directories, files, bytes)
    requires Distinct(entries) && forall p :: p in entries <==> p in Children(tree, d)
    ensures r.Ok? ==> Reading(tree, t, d, {}) && t.done == w.done && Counts(tree, t, r.value.0, r.value.1, r.value.2)
    ensures r.Err? ==> !Countable(tree)
  {
    t := w;
    r := Ok((directories, files, bytes));
    ghost var pending := Children(tree, d);
    for k := 0 to |entries|
      invariant Reading(tree, t, d, pending) && t.done == w.done
      invariant forall j :: k <= j < |entries| ==> entries[j] in pending
      invariant forall p :: p in pending ==> p in entries[k..]
      invariant r.Ok? && Counts(tree, t, r.value.0, r.value.1, r.value.2)
    {
      var path := entries[k];
      VisitKeeps(tree, HOME, t, path, pending);
      r := CountEntry(tree, path, r.value.0, r.value.1, r.value.2, t);
      if r.Err? { return; }
      ReadingGoesOn(tree, t, d, pending, path);
      t, pending := Visit(tree, t, path), pending - {path};
    }
    assert pending == {};
  }

  lemma CountedEverything(tree: Tree, w: Walk)
    requires WellFormed(tree) && Sound(tree, HOME, w) && Whole(tree, HOME, w, {}) && FitSoFar(tree, w, {}) && w.queue == []
    ensures w.done == DirsUnder(tree, HOME) && w.seen == FilesUnder(tree, HOME) && PathsFit(tree)
  {
    WalkIsComplete(tree, HOME, w);
    forall p | p in tree && HOME <= p && p != HOME ensures Fits(p) {
      assert HOME <= Parent(p) && Parent(p) in w.done;
    }
  }

  /**
   The count of the owner's tree.  An answer is exact and within quota; a tree of files and
   directories is refused only if it is over quota or holds a path too long to name.
   */
  method ComputeUsage(tree: Tree) returns (r: Result<Usage, FsError>)
    requires WellFormed(tree) && IsDir(tree, HOME)
    ensures r.Ok? ==> r.value == ExactUsage(tree) && WithinQuota(r.value) && PathsFit(tree)
    ensures Plain(tree) ==> (r.Ok? <==> WithinQuota(ExactUsage(tree)) && PathsFit(tree))
  {
    var directories, directoryCount, files, bytes := [HOME], 0, 0, 0;
    ghost var w := Start(tree, HOME);
    StartKeeps(tree, HOME);
    while directories != []
      invariant Sound(tree, HOME, w) && Whole(tree, HOME, w, {}) && FitSoFar(tree, w, {})
      invariant Counts(tree, w, directories, files, bytes)
      invariant directoryCount == |w.done| <= 256
      decreases DirsUnder(tree, HOME) - w.done
    {
      var directory := directories[0];
      ReadingStarts(tree, w);
      w := Enter(w);
      directories, directoryCount := directories[1..], directoryCount + 1;
      WalkCounts(tree, w, Children(tree, directory));
      if directoryCount > MAX_DIRECTORIES { return Err(DirectoryQuota); }
      var remaining := MAX_FILES + MAX_DIRECTORIES + 1 - files - directoryCount;
      if remaining <= 0 { return Err(FileQuota); }
      var entries := Readdir(tree, directory, remaining + 1);
      if |entries| > remaining { return Err(FileQuota); }
      var counted;
      counted, w := CountEntries(tree, directory, entries, directories, files, bytes, w);
      if counted.Err? { return Err(counted.error); }
      directories, files, bytes := counted.value.0, counted.value.1, counted.value.2;
    }
    CountedEverything(tree, w);
    return Ok(Usage(directoryCount, files, bytes));
  }
}
