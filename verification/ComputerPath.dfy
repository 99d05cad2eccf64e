/** Paths as text, and the check every path from outside goes through (src/computer-filesystem.ts). */
module ComputerPath {
  import opened Wrappers
  import opened FileTree
  import opened ComputerUsage
  import opened Strings

  datatype PathError = Malformed | EmptySegment | OutsideHome | Traversal

  /** A path written out: every name preceded by a slash. */
  function Render(p: Path): string { if p == [] then "" else Render(Parent(p)) + "/" + p[|p| - 1].text }

  predicate ValidName(name: string) {
    name != "" && '/' !in name && '\0' !in name && name != "." && name != ".."
  }

  ghost predicate ValidPath(p: Path) { HOME <= p && forall k :: 0 <= k < |p| ==> ValidName(p[k].text) }

  ghost predicate DoubleSlash(s: string) { exists i :: 0 <= i < |s| - 1 && s[i] == '/' == s[i + 1] }

  predicate HasDoubleSlash(s: string)
    ensures HasDoubleSlash(s) <==> DoubleSlash(s)
  {
    if |s| < 2 then false
    else
      assert DoubleSlash(s) <==> (s[0] == '/' == s[1]) || DoubleSlash(s[1..]) by { SlashStep(s); }
      (s[0] == '/' && s[1] == '/') || HasDoubleSlash(s[1..])
  }

  lemma SlashStep(s: string)
    requires |s| >= 2
    ensures DoubleSlash(s) <==> (s[0] == '/' == s[1]) || DoubleSlash(s[1..])
  {
    if DoubleSlash(s) && !(s[0] == '/' == s[1]) {
      var i :| 0 <= i < |s| - 1 && s[i] == '/' == s[i + 1];
      assert s[1..][i - 1] == '/' == s[1..][i];
    }
    if DoubleSlash(s[1..]) {
      var i :| 0 <= i < |s[1..]| - 1 && s[1..][i] == '/' == s[1..][i + 1];
      assert s[i + 1] == '/' == s[i + 2];
    }
  }

  predicate Traverses(segments: seq<string>) { "." in segments || ".." in segments }

  /** Accept a path under the home directory and drop its trailing slash. */
  function ResolveComputerPath(value: string): Result<string, PathError> {
    var home := Render(HOME);
    if value == "" || ByteLength(value) > MAX_PATH_BYTES || '\0' in value then Err(Malformed)
    else if HasDoubleSlash(value) then Err(EmptySegment)
    else if value != home && !(home + "/" <= value) then Err(OutsideHome)
    else if Traverses(Split(value, '/')) then Err(Traversal)
    else if value[|value| - 1] == '/' && value != home then Ok(value[..|value| - 1])
    else Ok(value)
  }

  // ---------------------------------------------------------------- segments

  function Names(p: Path): seq<string> { if p == [] then [] else Names(Parent(p)) + [p[|p| - 1].text] }

  function PathOf(names: seq<string>): Path { if names == [] then [] else PathOf(names[..|names| - 1]) + [Key(names[|names| - 1])] }

  lemma {:induction false} NamesOfPath(names: seq<string>)
    ensures Names(PathOf(names)) == names && |PathOf(names)| == |names|
    ensures forall k :: 0 <= k < |names| ==> PathOf(names)[k] == Key(names[k])
  {
    if names != [] {
      NamesOfPath(names[..|names| - 1]);
      assert Parent(PathOf(names)) == PathOf(names[..|names| - 1]);
    }
  }

  lemma {:induction false} NamesAre(p: Path)
    ensures |Names(p)| == |p| && forall k :: 0 <= k < |p| ==> Names(p)[k] == p[k].text
  {
    if p != [] { NamesAre(Parent(p)); }
  }

  /** The segments of a rendered path are its names. */
  lemma {:induction false} RenderSplits(p: Path)
    requires forall k :: 0 <= k < |p| ==> '/' !in p[k].text
    ensures Split(Render(p), '/') == [""] + Names(p)
  {
    if p != [] {
      RenderSplits(Parent(p));
      var last := p[|p| - 1].text;
      SplitAppend(Render(Parent(p)), last, '/');
      SplitWhole(last, '/');
    }
  }

  /** Distinct valid paths are written differently. */
  lemma RenderIsInjective(p: Path, q: Path)
    requires ValidPath(p) && ValidPath(q) && Render(p) == Render(q)
    ensures p == q
  {
    RenderSplits(p);
    RenderSplits(q);
    NamesAre(p);
    NamesAre(q);
    assert ([""] + Names(p))[1..] == Names(p) && ([""] + Names(q))[1..] == Names(q);
    forall k | 0 <= k < |p| ensures p[k] == q[k] { assert Names(p)[k] == Names(q)[k]; }
  }

  /** The byte count the quota code bounds is that of the rendered path. */
  lemma {:induction false} RenderBytes(p: Path)
    ensures ByteLength(Render(p)) == PathBytes(p)
  {
    if p != [] {
      RenderBytes(Parent(p));
      BytesAdd(Render(Parent(p)) + "/", p[|p| - 1].text);
      BytesAdd(Render(Parent(p)), "/");
    }
  }

  /** Two slashes in a row are an empty segment inside. */
  ghost predicate EmptyInside(segments: seq<string>) { exists k :: 0 < k < |segments| - 1 && segments[k] == "" }

  lemma {:induction false} SlashesAreEmptySegments(s: string)
    ensures DoubleSlash(s) <==> EmptyInside(Split(s, '/'))
  {
    if |s| >= 2 {
      SlashesAreEmptySegments(s[1..]);
      SlashStep(s);
      var all, rest := Split(s, '/'), Split(s[1..], '/');
      if s[0] == '/' {
        assert forall k :: 0 < k < |all| ==> all[k] == rest[k - 1];
        assert rest[0] == "" && |rest| > 1 <==> s[1] == '/';
        if EmptyInside(rest) { var k :| 0 < k < |rest| - 1 && rest[k] == ""; assert all[k + 1] == ""; }
        if s[1] == '/' { assert all[1] == ""; }
      } else {
        assert forall k :: 0 < k < |all| ==> all[k] == rest[k];
      }
    }
  }

  // ---------------------------------------------------------------- what is accepted

  /** The two ways of writing a path: with a slash at the end or without. */
  predicate Writes(value: string, p: Path) { value == Render(p) || value == Render(p) + "/" }

  lemma {:induction false} CharsOfRender(p: Path, c: char)
    requires c != '/' && forall k :: 0 <= k < |p| ==> c !in p[k].text
    ensures c !in Render(p)
  {
    if p != [] { CharsOfRender(Parent(p), c); }
  }

  lemma {:induction false} HomeComesFirst(p: Path)
    requires HOME <= p
    ensures p == HOME || Render(HOME) + "/" <= Render(p)
    decreases |p|
  {
    if p != HOME {
      assert HOME <= Parent(p);
      HomeComesFirst(Parent(p));
      assert Render(p) == Render(Parent(p)) + ("/" + p[|p| - 1].text);
    }
  }

  lemma WritingSplits(value: string, p: Path)
    requires ValidPath(p) && Writes(value, p)
    ensures Split(value, '/') == [""] + Names(p) + (if value == Render(p) then [] else [""])
  {
    RenderSplits(p);
    if value != Render(p) {
      SplitAppend(Render(p), "", '/');
      assert Render(p) + ['/'] + "" == value;
    } else {
      assert [""] + Names(p) + [] == [""] + Names(p);
    }
  }

  lemma RenderEnds(p: Path)
    requires ValidPath(p)
    ensures Render(p) != "" && Render(p)[|Render(p)| - 1] != '/'
  {
    var last := p[|p| - 1].text;
    assert Render(p)[|Render(p)| - 1] == last[|last| - 1];
  }

  lemma WritingSegments(value: string, p: Path)
    requires ValidPath(p) && Writes(value, p)
    ensures !HasDoubleSlash(value) && !Traverses(Split(value, '/'))
  {
    WritingSplits(value, p);
    NamesAre(p);
    SlashesAreEmptySegments(value);
    var segments := Split(value, '/');
    forall k | 0 <= k < |segments| ensures k <= |p| || segments[k] == "" {}
    forall k | 0 < k <= |p| ensures ValidName(segments[k]) { assert segments[k] == p[k - 1].text; }
  }

  lemma WritingOutline(value: string, p: Path)
    requires ValidPath(p) && Writes(value, p)
    ensures value != "" && '\0' !in value
    ensures value == Render(HOME) || Render(HOME) + "/" <= value
    ensures value == Render(p) <==> value[|value| - 1] != '/'
    ensures value != Render(p) ==> value != Render(HOME) && value[..|value| - 1] == Render(p)
  {
    CharsOfRender(p, '\0');
    RenderEnds(p);
    RenderEnds(HOME);
    HomeComesFirst(p);
  }

  /** Every writing of a valid path that is short enough is accepted, as the path without a slash at the end. */
  lemma WritingsAreAccepted(value: string, p: Path)
    requires ValidPath(p) && Writes(value, p) && ByteLength(value) <= 1024
    ensures ResolveComputerPath(value) == Ok(Render(p))
  {
    WritingOutline(value, p);
    WritingSegments(value, p);
  }

  lemma {:induction false} SplitKeepsChars(s: string, c: char)
    requires c !in s
    ensures forall k :: 0 <= k < |Split(s, '/')| ==> c !in Split(s, '/')[k]
  {
    if s != "" { SplitKeepsChars(s[1..], c); }
  }

  lemma HomeSegments(value: string)
    requires value == Render(HOME) || Render(HOME) + "/" <= value
    ensures var segments := Split(value, '/');
            && |segments| >= 3 && segments[0] == "" && segments[1] == "home" && segments[2] == "user"
            && (|segments| == 3 <==> value == Render(HOME))
  {
    RenderSplits(HOME);
    NamesAre(HOME);
    if value != Render(HOME) {
      var rest := value[|Render(HOME)| + 1..];
      SplitAppend(Render(HOME), rest, '/');
      assert Render(HOME) + ['/'] + rest == value;
    }
  }

  /** The path a list of segments spells. */
  lemma SegmentsSpell(value: string, names: seq<string>) returns (p: Path)
    requires |names| >= 2 && names[0] == "home" && names[1] == "user"
    requires forall k :: 0 <= k < |names| ==> ValidName(names[k])
    requires Split(value, '/') == [""] + names || Split(value, '/') == [""] + names + [""]
    ensures ValidPath(p) && Writes(value, p)
    ensures value == Render(p) <==> Split(value, '/') == [""] + names
  {
    p := PathOf(names);
    NamesOfPath(names);
    assert p[0] == Key("home") && p[1] == Key("user");
    JoinSplit(value, '/');
    JoinSplit(Render(p), '/');
    WritingSplits(Render(p), p);
    JoinSplit(Render(p) + "/", '/');
    RenderEnds(p);
    WritingSplits(Render(p) + "/", p);
    assert [""] + names + [] == [""] + names;
  }

  /** Whatever is accepted is a writing of a valid path. */
  lemma AcceptedIsWriting(value: string) returns (p: Path)
    requires ResolveComputerPath(value).Ok?
    ensures ValidPath(p) && Writes(value, p)
  {
    var segments := Split(value, '/');
    HomeSegments(value);
    SlashesAreEmptySegments(value);
    JoinSplit(value, '/');
    SplitKeepsChars(value, '\0');
    var n := |segments|;
    var names := if segments[n - 1] == "" then segments[1..n - 1] else segments[1..];
    assert segments == [""] + names + (if segments[n - 1] == "" then [""] else []);
    assert [""] + names + [] == [""] + names;
    forall k | 0 <= k < |names| ensures ValidName(names[k]) { assert names[k] == segments[k + 1]; }
    p := SegmentsSpell(value, names);
  }

  /** A path from outside is accepted exactly when it writes some valid path within 1024 bytes. */
  lemma AcceptedExactly(value: string)
    ensures ResolveComputerPath(value).Ok? <==>
              ByteLength(value) <= 1024 && exists p :: ValidPath(p) && Writes(value, p)
  {
    if ResolveComputerPath(value).Ok? { var p := AcceptedIsWriting(value); }
    if ByteLength(value) <= MAX_PATH_BYTES && exists p :: ValidPath(p) && Writes(value, p) {
      var p :| ValidPath(p) && Writes(value, p);
      WritingsAreAccepted(value, p);
    }
  }

  lemma HomeSpelled()
    ensures Render(HOME) == "/home/user"
  {
    assert Parent(HOME) == [Key("home")] && Parent([Key("home")]) == [];
    assert Render([Key("home")]) == "/home";
  }

  /** What a path is refused for, the first fault that applies. */
  lemma RefusedExactly(value: string)
    ensures var r := ResolveComputerPath(value);
            if value == "" || ByteLength(value) > 1024 || '\0' in value then r == Err(Malformed)
            else if DoubleSlash(value) then r == Err(EmptySegment)
            else if value != "/home/user" && !("/home/user" + "/" <= value) then r == Err(OutsideHome)
            else if exists k :: 0 <= k < |Split(value, '/')| && Split(value, '/')[k] in {".", ".."} then r == Err(Traversal)
            else r.Ok?
  {
    HomeSpelled();
    TraversesExactly(Split(value, '/'));
  }

  lemma TraversesExactly(segments: seq<string>)
    ensures Traverses(segments) <==> exists k :: 0 <= k < |segments| && segments[k] in {".", ".."}
  {
  }

  /** Resolving twice is resolving once. */
  lemma ResolveIsIdempotent(value: string)
    requires ResolveComputerPath(value).Ok?
    ensures ResolveComputerPath(ResolveComputerPath(value).value) == ResolveComputerPath(value)
  {
    var p := AcceptedIsWriting(value);
    WritingsAreAccepted(value, p);
    BytesAdd(Render(p), "/");
    WritingsAreAccepted(Render(p), p);
  }

  /** The path of a directory entry is refused exactly when it is too long. */
  lemma ChildPath(parent: Path, name: string)
    requires ValidPath(parent) && ValidName(name)
    ensures ResolveComputerPath(Render(parent) + "/" + name) ==
            if Fits(parent + [Key(name)]) then Ok(Render(parent + [Key(name)])) else Err(Malformed)
  {
    var p := parent + [Key(name)];
    assert Parent(p) == parent;
    RenderBytes(p);
    if Fits(p) { WritingsAreAccepted(Render(p), p); }
  }
}
