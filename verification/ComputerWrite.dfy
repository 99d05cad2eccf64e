/** Writing one file within the owner's quota, with rollback of created parents (src/computer-filesystem.ts). */
module ComputerWrite {
  import opened Collections
  import opened Wrappers
  import opened FileTree
  import opened ComputerUsage

  const WRITE_MAX_BYTES := 32 * 1024

  // ---------------------------------------------------------------- what a write means

  /** The directories a write of `path` has to create, outermost first. */
  function MissingDirs(tree: Tree, path: Path, k: nat): seq<Path>
    requires k <= |path|
    decreases |path| - k
  {
    if k + 1 >= |path| then []
    else (if path[..k + 1] in tree then [] else [path[..k + 1]]) + MissingDirs(tree, path, k + 1)
  }

  function Made(tree: Tree, dirs: seq<Path>): Tree { tree + map q | q in dirs :: Directory }

  /** The tree a successful write leaves: the file, and its missing parents, and nothing else. */
  function Written(tree: Tree, path: Path, text: string): Tree
    requires HOME <= path
  {
    Made(tree, MissingDirs(tree, path, |HOME|))[path := File(text)]
  }

  lemma {:induction false} MissingDirsHold(tree: Tree, path: Path, k: nat, q: Path)
    requires k <= |path|
    ensures q in MissingDirs(tree, path, k) <==> q < path && k < |q| && q !in tree
    decreases |path| - k
  {
    if k + 1 < |path| {
      MissingDirsHold(tree, path, k + 1, q);
      if q < path { assert q == path[..|q|]; }
    }
  }

  lemma {:induction false} MissingDirsDiffer(tree: Tree, path: Path, k: nat)
    requires k <= |path|
    ensures Distinct(MissingDirs(tree, path, k))
    decreases |path| - k
  {
    if k + 1 < |path| {
      var here, rest := path[..k + 1], MissingDirs(tree, path, k + 1);
      MissingDirsDiffer(tree, path, k + 1);
      MissingDirsHold(tree, path, k + 1, here);
      FirstIsDistinct(here, rest);
      assert [] + rest == rest;
    }
  }

  lemma MissingDirsAre(tree: Tree, path: Path, k: nat)
    requires k <= |path|
    ensures forall q :: q in MissingDirs(tree, path, k) <==> q < path && k < |q| && q !in tree
    ensures Distinct(MissingDirs(tree, path, k))
  {
    forall q ensures q in MissingDirs(tree, path, k) <==> q < path && k < |q| && q !in tree { MissingDirsHold(tree, path, k, q); }
    MissingDirsDiffer(tree, path, k);
  }

  /** A write puts the text at its path, makes a directory of whatever is missing between there and home, and changes nothing else. */
  lemma WrittenExactly(tree: Tree, path: Path, text: string)
    requires HOME <= path
    ensures var t := Written(tree, path, text);
            && path in t && t[path] == File(text)
            && forall p :: p != path ==>
                 && (p in t <==> p in tree || (HOME < p && p < path))
                 && (p in t ==> t[p] == if p in tree then tree[p] else Directory)
  {
    MissingDirsAre(tree, path, |HOME|);
    var t := Written(tree, path, text);
    forall p | p != path
      ensures p in t <==> p in tree || (HOME < p && p < path)
      ensures p in t ==> t[p] == if p in tree then tree[p] else Directory
    {
      if p < path && |HOME| < |p| { assert HOME < p; }
      assert p in t <==> p in tree || p in MissingDirs(tree, path, |HOME|);
    }
  }

  // ---------------------------------------------------------------- quota arithmetic

  lemma {:induction false} TotalSizeSame(t: Tree, u: Tree, files: set<Path>)
    requires forall p :: p in files ==> Size(t, p) == Size(u, p)
    ensures TotalSize(t, files) == TotalSize(u, files)
  {
    if files != {} {
      var p :| p in files;
      TotalSizeAdds(t, files, p);
      TotalSizeAdds(u, files, p);
      TotalSizeSame(t, u, files - {p});
    }
  }

  ghost predicate Writable(tree: Tree, path: Path) {
    && HOME < path
    && (forall q :: q < path && q in tree ==> tree[q].Directory?)
    && (path in tree ==> tree[path].File?)
  }

  function Existing(tree: Tree, path: Path): nat { if IsFile(tree, path) then 1 else 0 }

  lemma MadeDirs(tree: Tree, dirs: seq<Path>, made: set<Path>)
    requires made == Elements(dirs)
    requires forall p :: p in dirs ==> HOME <= p && p !in tree
    ensures |DirsUnder(Made(tree, dirs), HOME)| == |DirsUnder(tree, HOME)| + |made|
  {
    assert DirsUnder(Made(tree, dirs), HOME) == DirsUnder(tree, HOME) + made;
    assert DirsUnder(tree, HOME) !! made;
  }

  lemma FileIsNoDir(tree: Tree, path: Path, text: string)
    requires !IsDir(tree, path)
    ensures DirsUnder(tree[path := File(text)], HOME) == DirsUnder(tree, HOME)
  {
  }

  lemma WrittenDirs(tree: Tree, path: Path, text: string)
    requires Writable(tree, path)
    ensures |DirsUnder(Written(tree, path, text), HOME)| == |DirsUnder(tree, HOME)| + |MissingDirs(tree, path, |HOME|)|
  {
    var missing := MissingDirs(tree, path, |HOME|);
    MissingDirsAre(tree, path, |HOME|);
    DistinctCount(missing);
    MadeDirs(tree, missing, Elements(missing));
    FileIsNoDir(Made(tree, missing), path, text);
  }

  lemma WrittenFiles(tree: Tree, path: Path, text: string)
    requires Writable(tree, path)
    ensures FilesUnder(Written(tree, path, text), HOME) == FilesUnder(tree, HOME) + {path}
    ensures forall p :: p in FilesUnder(tree, HOME) && p != path ==> Size(Written(tree, path, text), p) == Size(tree, p)
  {
    MissingDirsAre(tree, path, |HOME|);
  }

  /** The usage after a write, from the usage before it. */
  lemma WrittenUsage(tree: Tree, path: Path, text: string)
    requires Writable(tree, path)
    ensures var before, after := ExactUsage(tree), ExactUsage(Written(tree, path, text));
            && after.directories == before.directories + |MissingDirs(tree, path, |HOME|)|
            && after.files == before.files + 1 - Existing(tree, path)
            && after.bytes == before.bytes - Size(tree, path) + ByteLength(text)
  {
    var t, files := Written(tree, path, text), FilesUnder(tree, HOME);
    WrittenDirs(tree, path, text);
    WrittenFiles(tree, path, text);
    TotalSizeAdds(t, files + {path}, path);
    assert files + {path} - {path} == files - {path};
    TotalSizeSame(tree, t, files - {path});
    if path in files {
      TotalSizeAdds(tree, files, path);
    } else {
      assert files - {path} == files;
    }
  }

  lemma WrittenWellFormed(tree: Tree, path: Path, text: string)
    requires WellFormed(tree) && Writable(tree, path) && IsDir(tree, HOME)
    ensures WellFormed(Written(tree, path, text))
  {
    var t, missing := Written(tree, path, text), MissingDirs(tree, path, |HOME|);
    MissingDirsAre(tree, path, |HOME|);
    forall p | p in t && p != [] ensures Parent(p) in t && t[Parent(p)] == Directory {
      if p in missing || p == path {
        var q := Parent(p);
        assert q < path;
        if |q| < |HOME| { PrefixesOf(tree, HOME, q); }
        if |q| == |HOME| { assert q == HOME; }
      } else {
        assert Parent(p) != path;
      }
    }
  }

  /** Whatever lies above an entry is a directory. */
  lemma {:induction false} PrefixesOf(tree: Tree, p: Path, q: Path)
    requires WellFormed(tree) && p in tree && q < p
    ensures q in tree && tree[q] == Directory
    decreases |p|
  {
    if q != Parent(p) { PrefixesOf(tree, Parent(p), q); }
  }

  // ---------------------------------------------------------------- path checks

  /** Everything above the path is a directory. */
  ghost predicate Reachable(tree: Tree, path: Path) { forall q :: q < path ==> IsDir(tree, q) }

  lemma EntriesAreReachable(tree: Tree, path: Path)
    requires WellFormed(tree) && path in tree
    ensures Reachable(tree, path)
  {
    forall q | q < path ensures IsDir(tree, q) { PrefixesOf(tree, path, q); }
  }

  /** Walk down the path, refusing symbolic links and non-directories on the way. */
  method CheckPath(tree: Tree, path: Path, allowMissingLeaf: bool) returns (r: Result<Option<Entry>, FsError>)
    requires path != [] && IsDir(tree, [])
    ensures !Reachable(tree, path) ==> r.Err?
    ensures Reachable(tree, path) && path in tree ==>
              r == if tree[path].Symlink? then Err(ThroughSymlink) else Ok(Some(tree[path]))
    ensures Reachable(tree, path) && path !in tree ==> r == if allowMissingLeaf then Ok(None) else Err(NotFound)
  {
    var index := 0;
    while true
      invariant index < |path|
      invariant forall q :: q < path && |q| <= index ==> IsDir(tree, q)
      decreases |path| - index
    {
      var current := path[..index + 1];
      assert forall q :: q < path && |q| == index + 1 ==> q == current;
      var last := index == |path| - 1;
      assert if last then current == path else current < path;
      assert if last then Reachable(tree, path) else Reachable(tree, path) ==> IsDir(tree, current);
      if current !in tree {
        return if allowMissingLeaf && last then Ok(None) else Err(NotFound);
      }
      if tree[current].Symlink? { return Err(ThroughSymlink); }
      if last { return Ok(Some(tree[current])); }
      if !tree[current].Directory? { return Err(NotADirectory); }
      index := index + 1;
    }
  }

  ghost predicate DirsBetween(tree: Tree, path: Path, k: nat) {
    forall q :: q < path && |HOME| < |q| <= k && q in tree ==> tree[q].Directory?
  }

  lemma OneLower(tree: Tree, path: Path, k: nat)
    requires k < |path| && DirsBetween(tree, path, k) && (path[..k + 1] in tree ==> tree[path[..k + 1]].Directory?)
    ensures DirsBetween(tree, path, k + 1)
  {
    forall q | q < path && |q| == k + 1 ensures q == path[..k + 1] {}
  }

  /** The parents below the home directory must be directories; missing ones are collected, outermost first. */
  method CollectMissing(tree: Tree, path: Path) returns (r: Result<seq<Path>, FsError>)
    requires HOME <= path
    ensures r.Ok? ==> r.value == MissingDirs(tree, path, |HOME|)
    ensures r.Ok? <==> forall q :: q < path && |HOME| < |q| && q in tree ==> tree[q].Directory?
  {
    var missing := [];
    var k := |HOME|;
    while k + 1 < |path|
      invariant |HOME| <= k <= |path|
      invariant MissingDirs(tree, path, |HOME|) == missing + MissingDirs(tree, path, k)
      invariant DirsBetween(tree, path, k)
    {
      var current := path[..k + 1];
      assert current < path;
      if current in tree && !tree[current].Directory? {
        return Err(if tree[current].Symlink? then ThroughSymlink else NotADirectory);
      }
      var here := if current in tree then [] else [current];
      OneLower(tree, path, k);
      Regroup(missing, here, MissingDirs(tree, path, k + 1));
      missing := missing + here;
      k := k + 1;
    }
    assert MissingDirs(tree, path, k) == [];
    return Ok(missing);
  }

  /** With no directory missing the path is reachable; with one missing nothing is at the path. */
  lemma MissingDecides(tree: Tree, path: Path)
    requires WellFormed(tree) && IsDir(tree, HOME) && HOME < path
    requires forall q :: q < path && |HOME| < |q| && q in tree ==> tree[q].Directory?
    ensures MissingDirs(tree, path, |HOME|) == [] ==> Reachable(tree, path)
    ensures MissingDirs(tree, path, |HOME|) != [] ==> path !in tree
    ensures forall q :: q < path && q in tree ==> tree[q].Directory?
  {
    MissingDirsAre(tree, path, |HOME|);
    var missing := MissingDirs(tree, path, |HOME|);
    forall q | q < path && |q| <= |HOME| ensures IsDir(tree, q) {
      if |q| < |HOME| { PrefixesOf(tree, HOME, q); } else { assert q == HOME; }
    }
    if missing != [] && path in tree {
      assert missing[0] in missing;
      PrefixesOf(tree, path, missing[0]);
    }
  }

  /** What stands at the path a write is aimed at, once its parents have been checked. */
  method CheckTarget(tree: Tree, path: Path, missing: seq<Path>) returns (r: Result<Option<Entry>, FsError>)
    requires WellFormed(tree) && IsDir(tree, HOME) && HOME <= path && missing == MissingDirs(tree, path, |HOME|)
    requires forall q :: q < path && |HOME| < |q| && q in tree ==> tree[q].Directory?
    ensures r.Ok? ==> Writable(tree, path) && r.value == if path in tree then Some(tree[path]) else None
    ensures r.Err? ==> !Writable(tree, path) || (IsFile(tree, path) && ByteLength(tree[path].text) > 4 * 1024 * 1024)
  {
    if path != HOME { MissingDecides(tree, path); } else { EntriesAreReachable(tree, HOME); }
    var existing: Option<Entry> := None;
    if missing == [] {
      var checked := CheckPath(tree, path, true);
      if checked.Err? { return Err(checked.error); }
      existing := checked.value;
    }
    if existing.Some? && !existing.value.File? { return Err(NotRegular); }
    if existing.Some? && ByteLength(existing.value.text) > MAX_STORAGE_BYTES { return Err(InvalidSize); }
    return Ok(existing);
  }

  /** All the checks before a write: shape of the path, then the quotas against the exact usage. */
  method PrepareWrite(tree: Tree, path: Path, contentBytes: nat, ghost text: string) returns (r: Result<seq<Path>, FsError>)
    requires WellFormed(tree) && IsDir(tree, HOME) && HOME <= path && contentBytes == ByteLength(text)
    ensures r.Ok? ==>
              && r.value == MissingDirs(tree, path, |HOME|) && Writable(tree, path)
              && WithinQuota(ExactUsage(Written(tree, path, text)))
    ensures Plain(tree) && Countable(tree) ==>
              (r.Ok? <==> Writable(tree, path) && WithinQuota(ExactUsage(Written(tree, path, text))))
  {
    var missing := CollectMissing(tree, path);
    if missing.Err? { return missing; }
    var target := CheckTarget(tree, path, missing.value);
    if target.Err? {
      if Writable(tree, path) { OversizeFile(tree, path); }
      return Err(target.error);
    }
    var existing := target.value;
    WrittenUsage(tree, path, text);
    var usage := ComputeUsage(tree);
    if usage.Err? { return Err(usage.error); }
    if usage.value.directories + |missing.value| > MAX_DIRECTORIES { return Err(DirectoryQuota); }
    var existingBytes := if existing.Some? then ByteLength(existing.value.text) else 0;
    if usage.value.files + (if existing.Some? then 0 else 1) > MAX_FILES { return Err(FileQuota); }
    if usage.value.bytes - existingBytes + contentBytes > MAX_STORAGE_BYTES { return Err(StorageQuota); }
    return missing;
  }

  lemma OversizeFile(tree: Tree, path: Path)
    requires IsFile(tree, path) && HOME <= path && ByteLength(tree[path].text) > 4 * 1024 * 1024
    ensures !WithinQuota(ExactUsage(tree))
  {
    TotalSizeAdds(tree, FilesUnder(tree, HOME), path);
  }
}
