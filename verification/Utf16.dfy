/** Text as JavaScript stores it, a sequence of UTF-16 code units, with `trim` and `slice`. */
module Utf16 {
  type CodeUnit = c: nat | c < 0x10000

  type Text = seq<CodeUnit>

  /** White space and line terminators (ECMA-262 sections 12.2 and 12.3). */
  predicate IsSpace(c: CodeUnit) {
    || 9 <= c <= 13 || c == 0x20 || c == 0xA0 || c == 0x1680 || 0x2000 <= c <= 0x200A
    || c == 0x2028 || c == 0x2029 || c == 0x202F || c == 0x205F || c == 0x3000 || c == 0xFEFF
  }

  function TrimStart(s: Text): Text { if s != [] && IsSpace(s[0]) then TrimStart(s[1..]) else s }

  function TrimEnd(s: Text): Text { if s != [] && IsSpace(s[|s| - 1]) then TrimEnd(s[..|s| - 1]) else s }

  function Trim(s: Text): Text { TrimEnd(TrimStart(s)) }

  /** `slice(0, n)`. */
  function Slice(s: Text, n: nat): Text { if |s| <= n then s else s[..n] }

  /** How the source shortens a field: trim it, then slice it. */
  function Shorten(s: Text, n: nat): Text { Slice(Trim(s), n) }

  predicate Trimmed(s: Text) { s == [] || (!IsSpace(s[0]) && !IsSpace(s[|s| - 1])) }

  lemma {:induction false} TrimStartDrops(s: Text)
    ensures TrimStart(s) == [] || !IsSpace(TrimStart(s)[0])
    ensures |TrimStart(s)| <= |s| && TrimStart(s) == s[|s| - |TrimStart(s)|..]
  {
    if s != [] && IsSpace(s[0]) { TrimStartDrops(s[1..]); }
  }

  lemma {:induction false} TrimEndDrops(s: Text)
    ensures TrimEnd(s) == [] || !IsSpace(TrimEnd(s)[|TrimEnd(s)| - 1])
    ensures TrimEnd(s) <= s
  {
    if s != [] && IsSpace(s[|s| - 1]) { TrimEndDrops(s[..|s| - 1]); }
  }

  lemma TrimIsTrimmed(s: Text)
    ensures Trimmed(Trim(s)) && |Trim(s)| <= |s|
  {
    TrimStartDrops(s);
    TrimEndDrops(TrimStart(s));
  }

  /** The twenty-five characters, one by one. */
  lemma SpacesExactly(c: CodeUnit)
    ensures IsSpace(c) <==>
              c in {0x0009, 0x000A, 0x000B, 0x000C, 0x000D, 0x0020, 0x00A0, 0x1680, 0x2000, 0x2001, 0x2002, 0x2003, 0x2004,
                    0x2005, 0x2006, 0x2007, 0x2008, 0x2009, 0x200A, 0x2028, 0x2029, 0x202F, 0x205F, 0x3000, 0xFEFF}
  {
  }

  lemma {:induction false} StartExactly(s: Text) returns (i: nat)
    ensures i <= |s| && TrimStart(s) == s[i..] && (forall k :: 0 <= k < i ==> IsSpace(s[k])) && (i < |s| ==> !IsSpace(s[i]))
  {
    i := 0;
    if s != [] && IsSpace(s[0]) {
      var n := StartExactly(s[1..]);
      i := n + 1;
      assert s[1..][n..] == s[i..];
      forall k | 0 <= k < i ensures IsSpace(s[k]) { if k > 0 { assert s[k] == s[1..][k - 1]; } }
    }
  }

  lemma {:induction false} EndExactly(s: Text) returns (j: nat)
    ensures j <= |s| && TrimEnd(s) == s[..j] && (forall k :: j <= k < |s| ==> IsSpace(s[k])) && (j > 0 ==> !IsSpace(s[j - 1]))
  {
    j := |s|;
    if s != [] && IsSpace(s[|s| - 1]) {
      j := EndExactly(s[..|s| - 1]);
      forall k | j <= k < |s| ensures IsSpace(s[k]) { if k < |s| - 1 { assert s[k] == s[..|s| - 1][k]; } }
    }
  }

  /** Trimming takes away spaces at both ends, all of them and nothing else. */
  lemma TrimExactly(s: Text) returns (i: nat, j: nat)
    ensures i <= j <= |s| && Trim(s) == s[i..j] && Trimmed(Trim(s))
    ensures forall k :: (0 <= k < i || j <= k < |s|) ==> IsSpace(s[k])
  {
    i := StartExactly(s);
    var rest := TrimStart(s);
    var n := EndExactly(rest);
    j := i + n;
    forall k | j <= k < |s| ensures IsSpace(s[k]) { assert s[k] == rest[k - i]; }
    TrimIsTrimmed(s);
  }

  /** Trimming leaves exactly the trimmed texts alone. */
  lemma TrimmedStays(s: Text)
    ensures Trim(s) == s <==> Trimmed(s)
  {
    TrimIsTrimmed(s);
  }

  /** Trimming keeps a first character that is no space. */
  lemma LeadingStays(s: Text)
    requires s != [] && !IsSpace(s[0])
    ensures Trim(s) != [] && Trim(s)[0] == s[0]
  {
    LeadingLetter(s);
  }

  lemma {:induction false} LeadingLetter(s: Text)
    requires s != [] && !IsSpace(s[0])
    ensures TrimEnd(s) != [] && TrimEnd(s)[0] == s[0]
  {
    if |s| > 1 && IsSpace(s[|s| - 1]) { LeadingLetter(s[..|s| - 1]); }
  }

  /** Shortening a second time can still change the text: only from the second time on is it settled. */
  lemma ShortenSettles(s: Text, n: nat)
    ensures Shorten(Shorten(Shorten(s, n), n), n) == Shorten(Shorten(s, n), n)
    ensures Shorten(Shorten(s, n), n) == Trim(Shorten(s, n))
  {
    var once := Shorten(s, n);
    TrimIsTrimmed(once);
    TrimmedStays(Trim(once));
  }

  /** Once is enough exactly when the cut falls outside the trimmed text or just after a character that is no space. */
  lemma ShortenOnceIsEnough(s: Text, n: nat)
    ensures Shorten(Shorten(s, n), n) == Shorten(s, n) <==>
              |Trim(s)| <= n || n == 0 || !IsSpace(Trim(s)[n - 1])
  {
    var once := Shorten(s, n);
    ShortenSettles(s, n);
    TrimIsTrimmed(s);
    TrimmedStays(once);
  }

  /** A text of a letter, a space and a letter, cut after two, settles only on the second pass. */
  lemma ShortenTwiceDiffers()
    ensures Shorten([65, 32, 66], 2) == [65, 32] && Shorten([65, 32], 2) == [65]
  {
    assert TrimStart([65, 32, 66]) == [65, 32, 66] && TrimEnd([65, 32, 66]) == [65, 32, 66];
    assert TrimEnd([65]) == [65] && [65, 32][..1] == [65] && [65, 32, 66][..2] == [65, 32];
    assert TrimEnd([65, 32]) == TrimEnd([65, 32][..1]);
  }
}
