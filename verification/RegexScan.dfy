/** Finding regular-expression lookaround by one pass over the pattern (src/tool-output-limit.ts, hasUnsupportedRegexLookaround). */
module RegexScan {
  /** The text right after "(" that makes it a lookahead or lookbehind (ECMA-262 section 22.2.1, Assertion). */
  predicate Opens(t: string) {
    && |t| >= 2 && t[0] == '?'
    && (t[1] == '=' || t[1] == '!' || (|t| >= 3 && t[1] == '<' && (t[2] == '=' || t[2] == '!')))
  }

  /** The four ways a lookaround goes on after its parenthesis. */
  ghost predicate StartsLookaround(t: string) { "?=" <= t || "?!" <= t || "?<=" <= t || "?<!" <= t }

  lemma OpensExactly(t: string)
    ensures Opens(t) <==> StartsLookaround(t)
  {
    assert "?=" <= t <==> |t| >= 2 && t[0] == '?' && t[1] == '=';
    assert "?!" <= t <==> |t| >= 2 && t[0] == '?' && t[1] == '!';
    assert "?<=" <= t <==> |t| >= 3 && t[0] == '?' && t[1] == '<' && t[2] == '=';
    assert "?<!" <= t <==> |t| >= 3 && t[0] == '?' && t[1] == '<' && t[2] == '!';
  }

  // ---------------------------------------------------------------- the pattern as a list of atoms

  /** One character, a backslash with the character it escapes, a backslash at the very end, or a whole class. */
  datatype Atom = Plain(c: char) | Escape(c: char) | Stray | Class(text: string)

  function Spelled(a: Atom): string {
    match a
    case Plain(c) => [c]
    case Escape(c) => ['\\', c]
    case Stray => ['\\']
    case Class(text) => ['['] + text
  }

  function Flatten(atoms: seq<Atom>): string { if atoms == [] then "" else Spelled(atoms[0]) + Flatten(atoms[1..]) }

  /** How far a class reaches: through its first unescaped bracket, or to the end. */
  function ClassEnd(t: string): (n: nat)
    ensures n <= |t|
  {
    if t == "" then 0
    else if t[0] == '\\' then (if |t| == 1 then 1 else 2 + ClassEnd(t[2..]))
    else if t[0] == ']' then 1
    else 1 + ClassEnd(t[1..])
  }

  function Atoms(t: string): seq<Atom>
    decreases |t|
  {
    if t == "" then []
    else if t[0] == '\\' then (if |t| == 1 then [Stray] else [Escape(t[1])] + Atoms(t[2..]))
    else if t[0] == '[' then [Class(t[1..][..ClassEnd(t[1..])])] + Atoms(t[1..][ClassEnd(t[1..])..])
    else [Plain(t[0])] + Atoms(t[1..])
  }

  /** The atoms spell the pattern. */
  lemma {:induction false} AtomsSpell(t: string)
    ensures Flatten(Atoms(t)) == t
    decreases |t|
  {
    if t != "" {
      if t[0] == '\\' {
        if |t| > 1 { AtomsSpell(t[2..]); }
      } else if t[0] == '[' {
        AtomsSpell(t[1..][ClassEnd(t[1..])..]);
      } else {
        AtomsSpell(t[1..]);
      }
    }
  }

  /** An opening parenthesis of its own, neither escaped nor in a class, followed by what makes it a lookaround. */
  ghost predicate LookaroundAt(atoms: seq<Atom>, k: nat) {
    k < |atoms| && atoms[k] == Plain('(') && StartsLookaround(Flatten(atoms[k + 1..]))
  }

  ghost predicate HasLookaround(t: string) { exists k: nat :: LookaroundAt(Atoms(t), k) }

  // ---------------------------------------------------------------- the scan

  /** What the scan will say from here on, outside a class and inside one. */
  predicate Outside(t: string) {
    if t == "" then false
    else if t[0] == '\\' then |t| > 1 && Outside(t[2..])
    else if t[0] == '[' then Inside(t[1..])
    else (t[0] == '(' && Opens(t[1..])) || Outside(t[1..])
  }

  predicate Inside(t: string) {
    if t == "" then false
    else if t[0] == '\\' then |t| > 1 && Inside(t[2..])
    else if t[0] == ']' then Outside(t[1..])
    else Inside(t[1..])
  }

  lemma {:induction false} InsideSkips(t: string)
    ensures Inside(t) == Outside(t[ClassEnd(t)..])
  {
    if t != "" {
      if t[0] == '\\' {
        if |t| > 1 {
          InsideSkips(t[2..]);
          assert t[2..][ClassEnd(t[2..])..] == t[ClassEnd(t)..];
        }
      } else if t[0] != ']' {
        InsideSkips(t[1..]);
        assert t[1..][ClassEnd(t[1..])..] == t[ClassEnd(t)..];
      }
    }
  }

  lemma LookaroundMoves(first: Atom, rest: seq<Atom>)
    ensures (exists k: nat :: LookaroundAt([first] + rest, k)) <==>
              (first == Plain('(') && Opens(Flatten(rest))) || exists k: nat :: LookaroundAt(rest, k)
  {
    var all := [first] + rest;
    assert all[1..] == rest;
    OpensExactly(Flatten(rest));
    forall k: nat ensures LookaroundAt(all, k + 1) <==> LookaroundAt(rest, k) {
      if k < |rest| { assert all[k + 1 + 1..] == rest[k + 1..]; }
    }
    if k: nat :| LookaroundAt(all, k) {
      if k > 0 { assert LookaroundAt(rest, k - 1); }
    }
    if first == Plain('(') && Opens(Flatten(rest)) { assert LookaroundAt(all, 0); }
    if k: nat :| LookaroundAt(rest, k) { assert LookaroundAt(all, k + 1); }
  }

  /** The scan flags a pattern exactly if one of its atoms opens a lookaround. */
  lemma {:induction false} ScanFindsLookaround(t: string)
    ensures Outside(t) <==> HasLookaround(t)
    decreases |t|
  {
    if t != "" {
      if t[0] == '\\' {
        if |t| > 1 {
          ScanFindsLookaround(t[2..]);
          LookaroundMoves(Escape(t[1]), Atoms(t[2..]));
          assert Atoms(t) == [Escape(t[1])] + Atoms(t[2..]);
        } else {
          assert Atoms(t) == [Stray];
          assert Outside(t) <==> HasLookaround(t);
        }
      } else if t[0] == '[' {
        var body, rest := t[1..][..ClassEnd(t[1..])], t[1..][ClassEnd(t[1..])..];
        InsideSkips(t[1..]);
        ScanFindsLookaround(rest);
        LookaroundMoves(Class(body), Atoms(rest));
        assert Atoms(t) == [Class(body)] + Atoms(rest);
      } else {
        ScanFindsLookaround(t[1..]);
        AtomsSpell(t[1..]);
        LookaroundMoves(Plain(t[0]), Atoms(t[1..]));
        assert Atoms(t) == [Plain(t[0])] + Atoms(t[1..]);
      }
    } else {
      assert Atoms(t) == [];
    }
  }

  method HasUnsupportedRegexLookaround(pattern: string) returns (found: bool)
    ensures found <==> HasLookaround(pattern)
    ensures found == Outside(pattern)
  {
    ScanFindsLookaround(pattern);
    var insideCharacterClass := false;
    var index := 0;
    while index < |pattern|
      invariant index <= |pattern| + 1
      invariant Outside(pattern) == if index >= |pattern| then false
                                    else if insideCharacterClass then Inside(pattern[index..]) else Outside(pattern[index..])
    {
      var character := pattern[index];
      ghost var here := pattern[index..];
      assert here[0] == character && forall n :: 0 <= n <= |here| ==> here[n..] == pattern[index + n..];
      if character == '\\' {
        index := index + 2;
      } else if character == '[' {
        insideCharacterClass := true;
        index := index + 1;
      } else if character == ']' && insideCharacterClass {
        insideCharacterClass := false;
        index := index + 1;
      } else {
        if !insideCharacterClass && character == '(' && index + 1 < |pattern| && pattern[index + 1] == '?' && index + 2 < |pattern| {
          if pattern[index + 2] == '=' || pattern[index + 2] == '!' { return true; }
          if pattern[index + 2] == '<' && index + 3 < |pattern| && (pattern[index + 3] == '=' || pattern[index + 3] == '!') {
            return true;
          }
        }
        index := index + 1;
      }
    }
    return false;
  }
}
