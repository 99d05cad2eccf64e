/** The workspace object: file-system calls that may fail, and the write that cleans up after them. */
module ComputerWorkspace {
  import opened Wrappers
  import opened FileTree
  import opened ComputerUsage
  import opened ComputerWrite

  const PARENT_OF_HOME: Path := [Key("home")]

  /** The tree once the home directory has been made. */
  function Homed(tree: Tree): Tree {
    tree[PARENT_OF_HOME := Directory][HOME := Directory]
  }

  /** Making the home directory adds the two directories on the way to it, as far as they are not there, and nothing else. */
  lemma HomedExactly(tree: Tree)
    ensures var home, above := [Key("home"), Key("user")], [Key("home")];
            && Homed(tree).Keys == tree.Keys + {above, home} && Homed(tree)[above] == Homed(tree)[home] == Directory
            && forall p :: p in tree && p != above && p != home ==> Homed(tree)[p] == tree[p]
  {
  }

  /** The home directory is there, or nothing stands in the way of making it. */
  ghost predicate HomeReady(tree: Tree) {
    forall p :: p in tree && (p == [Key("home")] || p == [Key("home"), Key("user")]) ==> tree[p].Directory?
  }

  /** A rollback removes everything at or below a directory. */
  function Pruned(tree: Tree, root: Path): Tree { map p | p in tree && !(root <= p) :: tree[p] }

  class Workspace {
    var tree: Tree

    constructor (initial: Tree)
      ensures tree == initial
    {
      tree := initial;
    }

    /** Each call either takes effect or fails without one; a failure needs no reason. */
    method Mkdir(p: Path) returns (ok: bool)
      requires p != [] && p !in tree && IsDir(tree, Parent(p))
      modifies this
      ensures tree == if ok then old(tree)[p := Directory] else old(tree)
    {
      ok := *;
      if ok { tree := tree[p := Directory]; }
    }

    method WriteFile(p: Path, text: string) returns (ok: bool)
      requires p != [] && IsDir(tree, Parent(p)) && (p in tree ==> tree[p].File?)
      modifies this
      ensures tree == if ok then old(tree)[p := File(text)] else old(tree)
    {
      ok := *;
      if ok { tree := tree[p := File(text)]; }
    }

    method Rm(root: Path) returns (ok: bool)
      modifies this
      ensures tree == if ok then Pruned(old(tree), root) else old(tree)
    {
      ok := *;
      if ok { tree := Pruned(tree, root); }
    }

    method MkdirHome() returns (ok: bool)
      requires HOME !in tree && (PARENT_OF_HOME in tree ==> tree[PARENT_OF_HOME].Directory?)
      modifies this
      ensures tree == if ok then Homed(old(tree)) else old(tree)
    {
      ok := *;
      if ok { tree := Homed(tree); }
    }

    /** Make the home directory if it is missing, and check that it is one. */
    method EnsureHome() returns (r: Result<(), FsError>)
      requires WellFormed(tree)
      modifies this
      ensures WellFormed(tree)
      ensures tree == if HOME !in old(tree) && HOME in tree then Homed(old(tree)) else old(tree)
      ensures r.Ok? ==> IsDir(tree, HOME)
      ensures if r.Ok? then HomeReady(old(tree)) else !HomeReady(old(tree)) || r.error == OperationFailed
      ensures r.Err? && HOME in old(tree) ==> !old(tree)[HOME].Directory?
    {
      assert Parent(HOME) == PARENT_OF_HOME && Parent(PARENT_OF_HOME) == [];
      if PARENT_OF_HOME in tree && tree[PARENT_OF_HOME].Symlink? { return Err(ThroughSymlink); }
      if PARENT_OF_HOME in tree && !tree[PARENT_OF_HOME].Directory? { return Err(NotADirectory); }
      if HOME !in tree {
        var made := MkdirHome();
        if !made { return Err(OperationFailed); }
        assert forall p :: p in tree && p != [] ==> p == HOME || p == PARENT_OF_HOME || p in old(tree);
      }
      EntriesAreReachable(tree, HOME);
      var home := CheckPath(tree, HOME, false);
      if home.Err? { return Err(home.error); }
      if home.value != Some(Directory) { return Err(NotADirectory); }
      return Ok(());
    }

    /** Create the missing directories, outermost first, until done or until one creation fails. */
    method MakeParents(path: Path, missing: seq<Path>) returns (ok: bool, created: nat)
      requires WellFormed(tree) && IsDir(tree, HOME) && Writable(tree, path) && missing == MissingDirs(tree, path, |HOME|)
      modifies this
      ensures created <= |missing| && (ok <==> created == |missing|)
      ensures tree == Made(old(tree), missing[..created])
    {
      ghost var base := tree;
      ok, created := true, 0;
      NothingMade(base, missing);
      while created < |missing|
        invariant created <= |missing| && tree == Made(base, missing[..created])
      {
        MissingInOrder(base, path, missing, created);
        ok := Mkdir(missing[created]);
        if !ok { return; }
        OneMoreMade(base, missing, created);
        created := created + 1;
      }
    }

    /** After a failure: remove the first directory created, if any was. */
    method Rollback(path: Path, missing: seq<Path>, created: nat, ghost base: Tree) returns (error: FsError)
      requires WellFormed(base) && IsDir(base, HOME) && Writable(base, path) && missing == MissingDirs(base, path, |HOME|)
      requires created <= |missing| && tree == Made(base, missing[..created])
      modifies this
      ensures error == OperationFailed || error == RollbackFailed
      ensures error != RollbackFailed ==> tree == base
    {
      if created > 0 {
        PruneUndoes(base, path, missing, created);
        var removed := Rm(missing[0]);
        if !removed { return RollbackFailed; }
      } else {
        NothingMade(base, missing);
      }
      return OperationFailed;
    }

    /**
     Write one file.  A text over 32 KiB is refused outright.  Success leaves exactly `Written`, within
     the quotas; any failure but that of the rollback itself leaves the tree as it was once the home
     directory existed.  If the home directory is there or can be made, and the tree is countable once it
     is, a write that stays within the quotas fails only when a file-system call does.
     */
    method WriteComputerFile(path: Path, text: string) returns (r: Result<nat, FsError>)
      requires WellFormed(tree) && HOME <= path
      modifies this
      ensures ByteLength(text) > 32 * 1024 ==> r == Err(ContentTooLong) && tree == old(tree)
      ensures r.Ok? ==>
                && ByteLength(text) <= 32 * 1024 && HomeReady(old(tree)) && Writable(Base(old(tree)), path)
                && r.value == ByteLength(text) && tree == Written(Base(old(tree)), path, text)
                && WellFormed(tree) && WithinQuota(ExactUsage(tree))
      ensures r.Err? && r.error != RollbackFailed ==> tree == old(tree) || tree == Base(old(tree))
      ensures var base := Base(old(tree));
              HomeReady(old(tree)) && Plain(base) && Countable(base) && ByteLength(text) <= 32 * 1024
              && Writable(base, path) && WithinQuota(ExactUsage(Written(base, path, text))) ==>
                r.Ok? || r.error == OperationFailed || r.error == RollbackFailed
    {
      if ByteLength(text) > WRITE_MAX_BYTES { return Err(ContentTooLong); }
      var home := EnsureHome();
      if home.Err? { return Err(home.error); }
      ghost var base := tree;
      assert base == Base(old(tree));
      var prepared := PrepareWrite(tree, path, ByteLength(text), text);
      if prepared.Err? { return Err(prepared.error); }
      var missing := prepared.value;
      WrittenWellFormed(tree, path, text);
      var ok, created := MakeParents(path, missing);
      if ok {
        AllMade(base, path, missing);
        ok := WriteFile(path, text);
      }
      if !ok {
        var error := Rollback(path, missing, created, base);
        return Err(error);
      }
      return Ok(ByteLength(text));
    }
  }

  /** The tree a write starts from: the home directory is made first when it is missing. */
  function Base(tree: Tree): Tree { if HOME in tree then tree else Homed(tree) }

  // ---------------------------------------------------------------- the missing directories, in order

  /** The missing directories are the last prefixes of the path, each one name longer than the one before. */
  lemma {:induction false} MissingRun(tree: Tree, path: Path, from: nat)
    requires WellFormed(tree) && from <= |path| && forall q :: q < path && q in tree ==> tree[q].Directory?
    ensures var missing := MissingDirs(tree, path, from);
            && from + |missing| < |path| + (if from == |path| then 1 else 0)
            && (forall k :: 0 <= k < |missing| ==> missing[k] == path[..|path| - |missing| + k])
            && (from + 1 < |path| && path[..from + 1] !in tree ==> |missing| == |path| - from - 1)
    decreases |path| - from
  {
    if from + 1 < |path| {
      MissingRun(tree, path, from + 1);
      if from + 2 < |path| { assert Parent(path[..from + 2]) == path[..from + 1]; }
      if path[..from + 1] !in tree {
        var missing, rest := MissingDirs(tree, path, from), MissingDirs(tree, path, from + 1);
        assert |missing| == 1 + |rest| == |path| - from - 1;
        forall k | 0 <= k < |missing| ensures missing[k] == path[..from + 1 + k] {
          if k > 0 { assert missing[k] == rest[k - 1]; }
        }
      }
    }
  }

  /** The k-th path to be created: a missing directory, and at the end the file itself. */
  function Target(path: Path, missing: seq<Path>, k: nat): Path
    requires k <= |missing|
  {
    if k < |missing| then missing[k] else path
  }

  lemma TargetIsPrefix(base: Tree, path: Path, missing: seq<Path>, k: nat)
    requires WellFormed(base) && Writable(base, path)
    requires missing == MissingDirs(base, path, |HOME|) && k <= |missing|
    ensures |HOME| < |path| - |missing| + k <= |path| && Target(path, missing, k) == path[..|path| - |missing| + k]
  {
    MissingRun(base, path, |HOME|);
  }

  /** The directory above it is the one created just before, or was there all along. */
  lemma TargetParent(base: Tree, path: Path, missing: seq<Path>, k: nat)
    requires WellFormed(base) && IsDir(base, HOME) && Writable(base, path)
    requires missing == MissingDirs(base, path, |HOME|) && k <= |missing|
    ensures Target(path, missing, k) != []
    ensures if k == 0 then IsDir(base, Parent(Target(path, missing, k))) else Parent(Target(path, missing, k)) == missing[k - 1]
  {
    TargetIsPrefix(base, path, missing, k);
    if k > 0 {
      TargetIsPrefix(base, path, missing, k - 1);
    } else {
      FirstParent(base, path, missing);
      ParentOfPrefix(path, |path| - |missing|);
    }
  }

  lemma ParentOfPrefix(path: Path, n: nat)
    requires 0 < n <= |path|
    ensures Parent(path[..n]) == path[..n - 1]
  {
  }

  lemma FirstParent(base: Tree, path: Path, missing: seq<Path>)
    requires WellFormed(base) && IsDir(base, HOME) && Writable(base, path)
    requires missing == MissingDirs(base, path, |HOME|)
    ensures |HOME| < |path| - |missing| && IsDir(base, path[..|path| - |missing| - 1])
  {
    TargetIsPrefix(base, path, missing, 0);
    var above := path[..|path| - |missing| - 1];
    assert above < path;
    if |above| == |HOME| {
      assert above == HOME;
    } else {
      MissingDirsAre(base, path, |HOME|);
      forall k | 0 <= k < |missing| ensures missing[k] != above {
        TargetIsPrefix(base, path, missing, k);
        assert |missing[k]| > |above|;
      }
      assert above !in missing;
    }
  }

  /** Each missing directory's parent is there by its turn. */
  lemma MissingInOrder(base: Tree, path: Path, missing: seq<Path>, k: nat)
    requires WellFormed(base) && IsDir(base, HOME) && Writable(base, path)
    requires missing == MissingDirs(base, path, |HOME|) && k < |missing|
    ensures missing[k] != [] && missing[k] !in Made(base, missing[..k])
    ensures IsDir(Made(base, missing[..k]), Parent(missing[k]))
  {
    MissingDirsAre(base, path, |HOME|);
    assert missing[k] in missing;
    TargetParent(base, path, missing, k);
    ParentIsMade(base, missing, k, Parent(missing[k]));
    assert missing[k] !in missing[..k];
  }

  lemma ParentIsMade(base: Tree, missing: seq<Path>, k: nat, above: Path)
    requires k <= |missing| && if k == 0 then IsDir(base, above) else above == missing[k - 1]
    ensures IsDir(Made(base, missing[..k]), above)
  {
    if k > 0 { assert missing[..k][k - 1] == above; }
  }

  lemma NothingMade(base: Tree, missing: seq<Path>)
    ensures Made(base, missing[..0]) == base
  {
  }

  lemma OneMoreMade(base: Tree, missing: seq<Path>, k: nat)
    requires k < |missing|
    ensures Made(base, missing[..k])[missing[k] := Directory] == Made(base, missing[..k + 1])
  {
    assert missing[..k + 1] == missing[..k] + [missing[k]];
  }

  lemma AllMade(base: Tree, path: Path, missing: seq<Path>)
    requires WellFormed(base) && IsDir(base, HOME) && Writable(base, path)
    requires missing == MissingDirs(base, path, |HOME|)
    ensures missing[..|missing|] == missing
    ensures path != [] && IsDir(Made(base, missing), Parent(path))
    ensures path in Made(base, missing) ==> Made(base, missing)[path].File?
  {
    assert missing[..|missing|] == missing;
    TargetParent(base, path, missing, |missing|);
    ParentIsMade(base, missing, |missing|, Parent(path));
    MissingDirsAre(base, path, |HOME|);
  }

  lemma UnderMissing(base: Tree, path: Path, missing: seq<Path>, k: nat, p: Path)
    requires WellFormed(base) && IsDir(base, HOME) && Writable(base, path)
    requires missing == MissingDirs(base, path, |HOME|) && 0 < k <= |missing|
    ensures p in base ==> !(missing[0] <= p)
    ensures p in missing[..k] ==> missing[0] <= p
  {
    MissingDirsAre(base, path, |HOME|);
    MissingRun(base, path, |HOME|);
    assert missing[0] in missing;
    if p in base && missing[0] <= p {
      assert missing[0] != p;
      PrefixesOf(base, p, missing[0]);
    }
  }

  /** Pruning at the first directory created undoes the creations and nothing else. */
  lemma PruneUndoes(base: Tree, path: Path, missing: seq<Path>, k: nat)
    requires WellFormed(base) && IsDir(base, HOME) && Writable(base, path)
    requires missing == MissingDirs(base, path, |HOME|) && 0 < k <= |missing|
    ensures Pruned(Made(base, missing[..k]), missing[0]) == base
  {
    forall p ensures p in base ==> !(missing[0] <= p) {
      UnderMissing(base, path, missing, k, p);
    }
    forall p ensures p in missing[..k] ==> missing[0] <= p {
      UnderMissing(base, path, missing, k, p);
    }
  }
}
