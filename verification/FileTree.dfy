/**
 The workspace as a finite tree, and the breadth-first walk that both the usage count and the
 search perform over it (src/computer-filesystem.ts).
 */
module FileTree {
  import opened Collections
  import opened Wrappers
  import Utf8

  /** A path is its names from the root down; "/" is the empty path. */
  type Path = seq<Key>

  datatype Entry = File(text: string) | Directory | Symlink | Other

  type Tree = map<Path, Entry>

  function Parent(p: Path): Path
    requires p != []
  {
    p[..|p| - 1]
  }

  /** Every entry but the root sits in a directory; a symbolic link has nothing below it. */
  ghost predicate WellFormed(tree: Tree) {
    && [] in tree && tree[[]] == Directory
    && forall p :: p in tree && p != [] ==> Parent(p) in tree && tree[Parent(p)] == Directory
  }

  predicate IsDir(tree: Tree, p: Path) { p in tree && tree[p].Directory? }

  predicate IsFile(tree: Tree, p: Path) { p in tree && tree[p].File? }

  predicate IsChild(p: Path, d: Path) { p != [] && Parent(p) == d }

  function Children(tree: Tree, d: Path): set<Path> { set p | p in tree && IsChild(p, d) }

  function DirsUnder(tree: Tree, root: Path): set<Path> { set p | p in tree && root <= p && tree[p].Directory? }

  function FilesUnder(tree: Tree, root: Path): set<Path> { set p | p in tree && root <= p && tree[p].File? }

  /** Directory listing: distinct children in an unspecified order, all of them unless the limit cuts it. */
  method Readdir(tree: Tree, d: Path, limit: nat) returns (entries: seq<Path>)
    ensures Distinct(entries)
    ensures forall p :: p in entries ==> p in Children(tree, d)
    ensures |entries| == Min(limit, |Children(tree, d)|)
    ensures |Children(tree, d)| <= limit ==> forall p :: p in Children(tree, d) ==> p in entries
  {
    var left := Children(tree, d);
    entries := [];
    while left != {} && |entries| < limit
      invariant Distinct(entries)
      invariant forall p :: p in entries ==> p in Children(tree, d) && p !in left
      invariant forall p :: p in Children(tree, d) ==> p in entries || p in left
      invariant left <= Children(tree, d)
      invariant |entries| + |left| == |Children(tree, d)|
      invariant |entries| <= limit
      decreases left
    {
      var p :| p in left;
      left := left - {p};
      entries := entries + [p];
    }
  }

  // ---------------------------------------------------------------- the walk

  /** Directories read, directories still queued, and files found. */
  datatype Walk = Walk(done: set<Path>, queue: seq<Path>, seen: set<Path>)

  predicate Touched(w: Walk, p: Path) { p in w.done || p in w.queue || p in w.seen }

  /** Whatever has been touched is real, and was reached through a directory already read. */
  ghost predicate Sound(tree: Tree, root: Path, w: Walk) {
    && Distinct(w.queue)
    && (forall p :: p in w.queue ==> p !in w.done && p in DirsUnder(tree, root))
    && w.done <= DirsUnder(tree, root)
    && w.seen <= FilesUnder(tree, root)
    && (forall p :: Touched(w, p) && p != root ==> p != [] && Parent(p) in w.done)
  }

  predicate Covered(tree: Tree, w: Walk, p: Path)
    requires p in tree
  {
    && (tree[p].Directory? ==> p in w.done || p in w.queue)
    && (tree[p].File? ==> p in w.seen)
  }

  /** Every child of a directory already read is covered, except those in `pending`. */
  ghost predicate Whole(tree: Tree, root: Path, w: Walk, pending: set<Path>) {
    && (root in tree ==> Covered(tree, w, root))
    && forall p :: p in tree && p != [] && Parent(p) in w.done && p !in pending ==> Covered(tree, w, p)
  }

  function Start(tree: Tree, root: Path): Walk {
    Walk({}, if IsDir(tree, root) then [root] else [], if IsFile(tree, root) then {root} else {})
  }

  /** Reading the directory at the head of the queue. */
  function Enter(w: Walk): Walk
    requires w.queue != []
  {
    Walk(w.done + {w.queue[0]}, w.queue[1..], w.seen)
  }

  function Visit(tree: Tree, w: Walk, p: Path): Walk {
    if IsDir(tree, p) then w.(queue := w.queue + [p])
    else if IsFile(tree, p) then w.(seen := w.seen + {p})
    else w
  }

  lemma StartKeeps(tree: Tree, root: Path)
    ensures Sound(tree, root, Start(tree, root)) && Whole(tree, root, Start(tree, root), {})
  {
  }

  lemma EnterKeeps(tree: Tree, root: Path, w: Walk)
    requires Sound(tree, root, w) && w.queue != []
    ensures Sound(tree, root, Enter(w))
    ensures forall p :: p in Children(tree, w.queue[0]) ==> root <= p && p != root && !Touched(Enter(w), p)
    ensures Whole(tree, root, w, {}) ==> Whole(tree, root, Enter(w), Children(tree, w.queue[0]))
  {
    var d, t := w.queue[0], Enter(w);
    assert d in w.queue;
    forall p | p in t.queue ensures p in w.queue && p != d {
      var i :| 0 <= i < |t.queue| && t.queue[i] == p;
      assert w.queue[i + 1] == p;
    }
    forall i, j | 0 <= i < j < |t.queue| ensures t.queue[i] != t.queue[j] {
      assert w.queue[i + 1] != w.queue[j + 1];
    }
    forall p | p in Children(tree, d) ensures root <= p && p != root && !Touched(t, p) {
      assert Parent(p) == d;
      assert root <= d;
    }
  }

  lemma VisitKeeps(tree: Tree, root: Path, w: Walk, p: Path, pending: set<Path>)
    requires Sound(tree, root, w) && p in tree && p != [] && root <= p && Parent(p) in w.done && !Touched(w, p)
    ensures Sound(tree, root, Visit(tree, w, p))
    ensures forall q :: Touched(Visit(tree, w, p), q) ==> Touched(w, q) || q == p
    ensures Whole(tree, root, w, pending) ==> Whole(tree, root, Visit(tree, w, p), pending - {p})
  {
  }

  /** A walk that missed nothing and has an empty queue has been everywhere. */
  lemma {:induction false} WalkedEverywhere(tree: Tree, root: Path, w: Walk, p: Path)
    requires WellFormed(tree) && Sound(tree, root, w) && Whole(tree, root, w, {}) && w.queue == []
    requires p in tree && root <= p
    ensures tree[p].Directory? ==> p in w.done
    ensures tree[p].File? ==> p in w.seen
    decreases |p|
  {
    if p != root {
      assert root <= Parent(p);
      WalkedEverywhere(tree, root, w, Parent(p));
    }
  }

  lemma WalkIsComplete(tree: Tree, root: Path, w: Walk)
    requires WellFormed(tree) && Sound(tree, root, w) && Whole(tree, root, w, {}) && w.queue == []
    ensures w.done == DirsUnder(tree, root) && w.seen == FilesUnder(tree, root)
  {
    forall p | p in DirsUnder(tree, root) ensures p in w.done { WalkedEverywhere(tree, root, w, p); }
    forall p | p in FilesUnder(tree, root) ensures p in w.seen { WalkedEverywhere(tree, root, w, p); }
  }

  // ---------------------------------------------------------------- sizes

  /** The UTF-8 length of one character, and of a string. */
  function CharBytes(c: char): nat {
    if c as int < 0x80 then 1 else if c as int < 0x800 then 2 else if c as int < 0x10000 then 3 else 4
  }

  lemma CharBytesAreUtf8(c: char)
    ensures CharBytes(c) == |Utf8.EncodeOne(c as int)|
  {
  }

  function ByteLength(s: string): nat { if s == "" then 0 else CharBytes(s[0]) + ByteLength(s[1..]) }

  lemma {:induction false} BytesAdd(s: string, t: string)
    ensures ByteLength(s + t) == ByteLength(s) + ByteLength(t)
  {
    if s == "" {
      assert s + t == t;
    } else {
      BytesAdd(s[1..], t);
      assert (s + t)[1..] == s[1..] + t;
    }
  }

  function Size(tree: Tree, p: Path): nat { if IsFile(tree, p) then ByteLength(tree[p].text) else 0 }

  ghost function TotalSize(tree: Tree, files: set<Path>): nat {
    if files == {} then 0 else var p :| p in files; Size(tree, p) + TotalSize(tree, files - {p})
  }

  lemma {:induction false} TotalSizeAdds(tree: Tree, files: set<Path>, p: Path)
    requires p in files
    ensures TotalSize(tree, files) == Size(tree, p) + TotalSize(tree, files - {p})
  {
    var q :| q in files && TotalSize(tree, files) == Size(tree, q) + TotalSize(tree, files - {q});
    if p != q {
      TotalSizeAdds(tree, files - {q}, p);
      TotalSizeAdds(tree, files - {p}, q);
      assert files - {q} - {p} == files - {p} - {q};
    }
  }

  lemma {:induction false} TotalSizeMonotone(tree: Tree, some: set<Path>, all: set<Path>)
    requires some <= all
    ensures TotalSize(tree, some) <= TotalSize(tree, all)
  {
    if some != {} {
      var p :| p in some;
      TotalSizeAdds(tree, some, p);
      TotalSizeAdds(tree, all, p);
      TotalSizeMonotone(tree, some - {p}, all - {p});
    }
  }
}
